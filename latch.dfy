/** The win latch of a round (script.js:178-211).

    Each call of `init` declares a fresh `canWin = true` and subscribes a new
    `collisionStart` handler that closes over it; handlers of earlier rounds
    stay subscribed.  A handler looks at every colliding pair of an event in
    order: a pair whose two labels are both in `['goal', 'p1']` calls
    `win('green')` while its round's `canWin` holds, then a pair whose two
    labels are both in `['goal', 'p2']` calls `win('blue')` under the same
    test.  `win` clears that `canWin` and adds one to the player's score.

    The state is the `canWin` of every round so far (`latches`, in the order
    the handlers were subscribed) and the two score counters. */
module Latch {
  import opened Wrappers

  /** The labels init gives its bodies; the border rectangles keep the
      engine's default label. */
  datatype Label = Wall | Goal | P1 | P2 | RectangleBody

  datatype Player = Green | Blue

  /** `collision.bodyA.label` and `collision.bodyB.label`. */
  datatype Collision = Collision(a: Label, b: Label)

  /** The two score counters of the page. */
  datatype Board = Board(green: nat, blue: nat)

  datatype State = State(latches: seq<bool>, board: Board)

  /** `['goal', 'p1']` for green, `['goal', 'p2']` for blue. */
  function Team(p: Player): seq<Label> {
    [Goal, if p == Green then P1 else P2]
  }

  /** Both labels of the pair are in the player's list. */
  predicate Qualifies(p: Player, c: Collision) {
    c.a in Team(p) && c.b in Team(p)
  }

  function Credit(b: Board, p: Player): Board {
    if p == Green then b.(green := b.green + 1) else b.(blue := b.blue + 1)
  }

  function Wins(b: Board): nat {
    b.green + b.blue
  }

  /** How many rounds can still be won. */
  function Count(latches: seq<bool>): nat
    decreases |latches|
  {
    if |latches| == 0 then 0
    else Count(latches[..|latches| - 1]) + (if latches[|latches| - 1] then 1 else 0)
  }

  /** `win(p)` as called from the handler of round k. */
  function Won(s: State, k: nat, p: Player): State
    requires k < |s.latches|
  {
    State(s.latches[k := false], Credit(s.board, p))
  }

  /** The body of `e.pairs.forEach` in the handler of round k, for one pair. */
  function OnPair(s: State, k: nat, c: Collision): (r: State)
    requires k < |s.latches|
    ensures |r.latches| == |s.latches|
  {
    var s1 := if Qualifies(Green, c) && s.latches[k] then Won(s, k, Green) else s;
    if Qualifies(Blue, c) && s1.latches[k] then Won(s1, k, Blue) else s1
  }

  /** The handler of round k over the pairs of one event, first to last. */
  function OnPairs(s: State, k: nat, cs: seq<Collision>): (r: State)
    requires k < |s.latches|
    ensures |r.latches| == |s.latches|
    decreases |cs|
  {
    if |cs| == 0 then s else OnPairs(OnPair(s, k, cs[0]), k, cs[1..])
  }

  /** One `collisionStart` event delivered to the handlers of rounds 0 .. n - 1, in subscription order. */
  function OnHandlers(s: State, cs: seq<Collision>, n: nat): (r: State)
    requires n <= |s.latches|
    ensures |r.latches| == |s.latches|
    decreases n
  {
    if n == 0 then s else OnPairs(OnHandlers(s, cs, n - 1), n - 1, cs)
  }

  /** One event delivered to every subscribed handler. */
  function OnEvent(s: State, cs: seq<Collision>): (r: State)
    ensures |r.latches| == |s.latches|
  {
    OnHandlers(s, cs, |s.latches|)
  }

  /** A sequence of events. */
  function OnEvents(s: State, es: seq<seq<Collision>>): (r: State)
    ensures |r.latches| == |s.latches|
    decreases |es|
  {
    if |es| == 0 then s else OnEvents(OnEvent(s, es[0]), es[1..])
  }

  /** A new round: `let canWin = true` and a newly subscribed handler. */
  function NewRound(s: State): State {
    State(s.latches + [true], s.board)
  }

  /** The player whose test passes first among the pairs, green before blue within a pair. */
  function FirstWinner(cs: seq<Collision>): (w: Option<Player>)
    ensures w.Some? ==> exists i :: 0 <= i < |cs| && Qualifies(w.value, cs[i])
    ensures w.None? ==> forall i :: 0 <= i < |cs| ==> !Qualifies(Green, cs[i]) && !Qualifies(Blue, cs[i])
    decreases |cs|
  {
    if |cs| == 0 then None
    else if Qualifies(Green, cs[0]) then Some(Green)
    else if Qualifies(Blue, cs[0]) then Some(Blue)
    else
      var w := FirstWinner(cs[1..]);
      assert forall i :: 1 <= i < |cs| ==> cs[i] == cs[1..][i - 1];
      w
  }

  // ---------------------------------------------------------------------------
  // Closed latches.

  /** A handler whose `canWin` is already false changes nothing. */
  lemma {:induction false} ClosedHandlerIsSilent(s: State, k: nat, cs: seq<Collision>)
    requires k < |s.latches| && !s.latches[k]
    ensures OnPairs(s, k, cs) == s
    decreases |cs|
  {
    if |cs| > 0 {
      ClosedHandlerIsSilent(s, k, cs[1..]);
    }
  }

  /** Once false, a latch stays false: no event reopens a round. */
  lemma {:induction false} LatchesOnlyClose(s: State, k: nat, cs: seq<Collision>, i: nat)
    requires k < |s.latches| && i < |s.latches| && !s.latches[i]
    ensures !OnPairs(s, k, cs).latches[i]
    decreases |cs|
  {
    if |cs| > 0 {
      LatchesOnlyClose(OnPair(s, k, cs[0]), k, cs[1..], i);
    }
  }

  // ---------------------------------------------------------------------------
  // Who wins.

  /** The handler of an open round credits exactly the first qualifying
      player of the event and closes its round; with no qualifying pair
      nothing changes. */
  lemma {:induction false} HandlerOutcome(s: State, k: nat, cs: seq<Collision>)
    requires k < |s.latches| && s.latches[k]
    ensures OnPairs(s, k, cs) == match FirstWinner(cs) case None => s case Some(p) => Won(s, k, p)
    decreases |cs|
  {
    if |cs| > 0 {
      var s1 := OnPair(s, k, cs[0]);
      if Qualifies(Green, cs[0]) || Qualifies(Blue, cs[0]) {
        ClosedHandlerIsSilent(s1, k, cs[1..]);
      } else {
        HandlerOutcome(s1, k, cs[1..]);
      }
    }
  }

  // ---------------------------------------------------------------------------
  // Every win closes one latch.

  lemma {:induction false} CountClose(l: seq<bool>, k: nat)
    requires k < |l| && l[k]
    ensures Count(l[k := false]) + 1 == Count(l)
    decreases |l|
  {
    var n := |l| - 1;
    assert l[k := false][..n] == if k < n then l[..n][k := false] else l[..n];
    if k < n {
      CountClose(l[..n], k);
    }
  }

  lemma {:induction false} CountAppend(l: seq<bool>, b: bool)
    ensures Count(l + [b]) == Count(l) + (if b then 1 else 0)
  {
    assert (l + [b])[..|l|] == l;
  }

  /** Wins plus open rounds is the same before and after one pair. */
  lemma PairConserves(s: State, k: nat, c: Collision)
    requires k < |s.latches|
    ensures Wins(OnPair(s, k, c).board) + Count(OnPair(s, k, c).latches) == Wins(s.board) + Count(s.latches)
  {
    var s1 := if Qualifies(Green, c) && s.latches[k] then Won(s, k, Green) else s;
    if Qualifies(Green, c) && s.latches[k] {
      CountClose(s.latches, k);
    }
    if Qualifies(Blue, c) && s1.latches[k] {
      CountClose(s1.latches, k);
    }
  }

  lemma {:induction false} PairsConserve(s: State, k: nat, cs: seq<Collision>)
    requires k < |s.latches|
    ensures Wins(OnPairs(s, k, cs).board) + Count(OnPairs(s, k, cs).latches) == Wins(s.board) + Count(s.latches)
    decreases |cs|
  {
    if |cs| > 0 {
      PairConserves(s, k, cs[0]);
      PairsConserve(OnPair(s, k, cs[0]), k, cs[1..]);
    }
  }

  lemma {:induction false} HandlersConserve(s: State, cs: seq<Collision>, n: nat)
    requires n <= |s.latches|
    ensures Wins(OnHandlers(s, cs, n).board) + Count(OnHandlers(s, cs, n).latches) == Wins(s.board) + Count(s.latches)
    decreases n
  {
    if n > 0 {
      HandlersConserve(s, cs, n - 1);
      PairsConserve(OnHandlers(s, cs, n - 1), n - 1, cs);
    }
  }

  lemma {:induction false} EventsConserve(s: State, es: seq<seq<Collision>>)
    ensures Wins(OnEvents(s, es).board) + Count(OnEvents(s, es).latches) == Wins(s.board) + Count(s.latches)
    decreases |es|
  {
    if |es| > 0 {
      HandlersConserve(s, es[0], |s.latches|);
      EventsConserve(OnEvent(s, es[0]), es[1..]);
    }
  }

  /** A round started when every earlier round is closed (init runs at load
      and again only from the timer `win` sets) hands out at most one win,
      whatever collisions follow. */
  lemma AtMostOneWinPerRound(s: State, es: seq<seq<Collision>>)
    requires Count(s.latches) == 0
    ensures Wins(OnEvents(NewRound(s), es).board) <= Wins(s.board) + 1
  {
    CountAppend(s.latches, true);
    EventsConserve(NewRound(s), es);
  }

  // ---------------------------------------------------------------------------
  // The handlers as code.

  /** The page: one `canWin` per round so far and the two score counters. */
  class Game {
    var latches: seq<bool>
    var board: Board

    function Current(): State
      reads this
    {
      State(latches, board)
    }

    /** Before the first `init`: no handler yet. */
    constructor (board: Board)
      ensures latches == [] && this.board == board
    {
      latches := [];
      this.board := board;
    }

    /** `let canWin = true` and `Events.on(engine, 'collisionStart', ...)` of a new `init`. */
    method StartRound()
      modifies this
      ensures Current() == NewRound(old(Current()))
    {
      latches := latches + [true];
    }

    /** `win(p)` (script.js:179-191) for the round whose handler called it. */
    method Win(k: nat, p: Player)
      requires k < |latches|
      modifies this
      ensures Current() == Won(old(Current()), k, p)
    {
      latches := latches[k := false];
      if p == Green {
        board := board.(green := board.green + 1);
      } else {
        board := board.(blue := board.blue + 1);
      }
    }

    /** The two tests of the handler of round k for one pair (script.js:194-208). */
    method HandlePair(k: nat, c: Collision)
      requires k < |latches|
      modifies this
      ensures Current() == OnPair(old(Current()), k, c)
    {
      var p1 := [Goal, P1];
      var p2 := [Goal, P2];
      if c.a in p1 && c.b in p1 && latches[k] {
        Win(k, Green);
      }
      if c.a in p2 && c.b in p2 && latches[k] {
        Win(k, Blue);
      }
    }

    /** `e.pairs.forEach(...)` in the handler of round k. */
    method Handle(k: nat, cs: seq<Collision>)
      requires k < |latches|
      modifies this
      ensures Current() == OnPairs(old(Current()), k, cs)
    {
      for i := 0 to |cs|
        invariant |latches| == |old(latches)|
        invariant OnPairs(Current(), k, cs[i..]) == OnPairs(old(Current()), k, cs)
      {
        assert cs[i..][1..] == cs[i + 1..];
        HandlePair(k, cs[i]);
      }
    }

    /** A `collisionStart` event: every subscribed handler, in subscription order. */
    method CollisionStart(cs: seq<Collision>)
      modifies this
      ensures Current() == OnEvent(old(Current()), cs)
    {
      for k := 0 to |latches|
        invariant |latches| == |old(latches)|
        invariant Current() == OnHandlers(old(Current()), cs, k)
      {
        Handle(k, cs);
      }
    }
  }
}
