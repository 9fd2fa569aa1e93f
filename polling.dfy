/**
 * The polling waits. Each wait re-reads the page's frames on every round and
 * probes them until a probe succeeds or its deadline passes. Time is a round
 * counter: `obs(t)` is the frame snapshot seen on round t, and a wait with a
 * deadline of D rounds probes rounds 0 .. D-1.
 */
module Polling {
  import opened Wrappers
  import opened Frames

  /** The sleep between two rounds of every wait, in milliseconds. */
  const PollIntervalMs: nat := 250

  /**
   * Rounds that fit in a timeout when a round lasts one sleep: the rounds k
   * that start at k * PollIntervalMs < ms.
   */
  function TicksFor(ms: nat): (n: nat)
    ensures forall k: nat :: k < n <==> k * PollIntervalMs < ms
  {
    var n := (ms + PollIntervalMs - 1) / PollIntervalMs;
    assert n * PollIntervalMs >= ms;
    assert n == 0 || (n - 1) * PollIntervalMs < ms;
    forall k: nat ensures k < n <==> k * PollIntervalMs < ms {
      if k < n { assert k * PollIntervalMs <= (n - 1) * PollIntervalMs; }
      else { assert k * PollIntervalMs >= n * PollIntervalMs; }
    }
    n
  }

  /** What one round of a wait looks for in the frame snapshot. */
  datatype Probe =
    | AnySelector(selectors: seq<Locator>) // waitAnySelectorInAnyFrame
    | AnyRows                             // waitRowsInAnyFrame
    | AnyText(pattern: Locator)           // waitTextInAnyFrame

  predicate Hits(frames: seq<FrameView>, p: Probe) {
    match p
    case AnySelector(sels) =>
      exists i, j :: 0 <= i < |frames| && 0 <= j < |sels| && sels[j] in frames[i].visible
    case AnyRows => AnyFrame(frames, HasRows)
    case AnyText(loc) => AnyFrame(frames, Shows(loc))
  }

  /** The first round in [from, deadline) whose snapshot the probe hits. */
  function FirstHit(obs: nat -> seq<FrameView>, p: Probe, from: nat, deadline: nat): (r: Option<nat>)
    decreases deadline - from
    ensures r.Some? ==> from <= r.value < deadline && Hits(obs(r.value), p)
    ensures r.Some? ==> forall t :: from <= t < r.value ==> !Hits(obs(t), p)
    ensures r.None? ==> forall t :: from <= t < deadline ==> !Hits(obs(t), p)
  {
    if from >= deadline then None
    else if Hits(obs(from), p) then Some(from)
    else FirstHit(obs, p, from + 1, deadline)
  }

  /** A settled promise. */
  datatype Outcome = Fulfilled(value: bool) | Rejected(message: string)

  /** The round on which a wait settled, and how. */
  datatype Settled = Settled(tick: nat, outcome: Outcome)

  /**
   * How a wait settles: fulfilled with true on the first round its probe hits,
   * otherwise with `onTimeout` once the deadline has passed.
   */
  function Settlement(obs: nat -> seq<FrameView>, p: Probe, deadline: nat, onTimeout: Outcome): Settled {
    match FirstHit(obs, p, 0, deadline)
    case Some(t) => Settled(t, Fulfilled(true))
    case None => Settled(deadline, onTimeout)
  }

  /** A wait never settles after its deadline, and settles early only on a hit. */
  lemma SettlementBounded(obs: nat -> seq<FrameView>, p: Probe, deadline: nat, onTimeout: Outcome)
    ensures Settlement(obs, p, deadline, onTimeout).tick <= deadline
    ensures Settlement(obs, p, deadline, onTimeout).tick < deadline ==>
      Hits(obs(Settlement(obs, p, deadline, onTimeout).tick), p)
  {
  }

  /** waitAnySelectorInAnyFrame: true on the first round some frame shows some selector, false at the deadline. */
  method WaitAnySelectorInAnyFrame(obs: nat -> seq<FrameView>, selectors: seq<Locator>, deadline: nat)
    returns (s: Settled)
    ensures s == Settlement(obs, AnySelector(selectors), deadline, Fulfilled(false))
  {
    var t := 0;
    while t < deadline
      invariant t <= deadline
      invariant FirstHit(obs, AnySelector(selectors), 0, deadline) == FirstHit(obs, AnySelector(selectors), t, deadline)
    {
      var frames := obs(t);
      for i := 0 to |frames|
        invariant forall k, j :: 0 <= k < i && 0 <= j < |selectors| ==> selectors[j] !in frames[k].visible
      {
        for j := 0 to |selectors|
          invariant forall m :: 0 <= m < j ==> selectors[m] !in frames[i].visible
        {
          if selectors[j] in frames[i].visible {
            return Settled(t, Fulfilled(true));
          }
        }
      }
      t := t + 1;
    }
    return Settled(deadline, Fulfilled(false));
  }

  const RowTimeoutMessage: string := "Timeout esperando filas de resultados."

  /** waitRowsInAnyFrame: true on the first round some frame has a table row; rejects at the deadline. */
  method WaitRowsInAnyFrame(obs: nat -> seq<FrameView>, deadline: nat) returns (s: Settled)
    ensures s == Settlement(obs, AnyRows, deadline, Rejected(RowTimeoutMessage))
  {
    var t := 0;
    while t < deadline
      invariant t <= deadline
      invariant FirstHit(obs, AnyRows, 0, deadline) == FirstHit(obs, AnyRows, t, deadline)
    {
      var f := FindFrame(obs(t), HasRows);
      if f.Some? {
        return Settled(t, Fulfilled(true));
      }
      t := t + 1;
    }
    return Settled(deadline, Rejected(RowTimeoutMessage));
  }

  /** waitTextInAnyFrame: true on the first round some frame shows the text, false at the deadline. */
  method WaitTextInAnyFrame(obs: nat -> seq<FrameView>, text: Locator, deadline: nat) returns (s: Settled)
    ensures s == Settlement(obs, AnyText(text), deadline, Fulfilled(false))
  {
    var t := 0;
    while t < deadline
      invariant t <= deadline
      invariant FirstHit(obs, AnyText(text), 0, deadline) == FirstHit(obs, AnyText(text), t, deadline)
    {
      var f := FindFrame(obs(t), Shows(text));
      if f.Some? {
        return Settled(t, Fulfilled(true));
      }
      t := t + 1;
    }
    return Settled(deadline, Fulfilled(false));
  }

  /** getByText(/sin resultados|no se encontraron/i) */
  const NoResultsText: Locator := Text("/sin resultados|no se encontraron/i")

  /**
   * The rows wait wins the race: some round before the deadline shows a row,
   * and no earlier round showed the no-results text.
   */
  predicate RowsWinRace(obs: nat -> seq<FrameView>, deadline: nat) {
    exists t :: 0 <= t < deadline && Hits(obs(t), AnyRows) &&
      forall u :: 0 <= u < t ==> !Hits(obs(u), AnyText(NoResultsText))
  }

  /** Which settlement comes first decides the race; a tie goes to the row wait, listed first. */
  lemma RaceDecision(obs: nat -> seq<FrameView>, deadline: nat)
    ensures RowsWinRace(obs, deadline) <==>
      (var rows := Settlement(obs, AnyRows, deadline, Rejected(RowTimeoutMessage));
       var text := Settlement(obs, AnyText(NoResultsText), deadline, Fulfilled(false));
       rows.outcome.Fulfilled? && rows.tick <= text.tick)
  {
    var rows := FirstHit(obs, AnyRows, 0, deadline);
    var text := FirstHit(obs, AnyText(NoResultsText), 0, deadline);
    if rows.Some? && (text.None? || rows.value <= text.value) {
      var t := rows.value;
      assert Hits(obs(t), AnyRows);
    }
  }

  /**
   * The race in the /consulta-cedula handler: the row wait mapped by
   * `.then(() => true).catch(() => false)` against the text wait mapped to
   * false either way; the first to settle gives `got`. Both waits only read
   * the page, so running each to completion and comparing the rounds on
   * which they settle is the race.
   */
  method RaceRowsAgainstText(obs: nat -> seq<FrameView>, deadline: nat) returns (got: bool, tick: nat)
    ensures got == RowsWinRace(obs, deadline)
    ensures tick <= deadline
    ensures got ==> tick < deadline && Hits(obs(tick), AnyRows) && FirstHit(obs, AnyRows, 0, deadline) == Some(tick)
  {
    var rows := WaitRowsInAnyFrame(obs, deadline);
    var text := WaitTextInAnyFrame(obs, NoResultsText, deadline);
    var rowsValue := rows.outcome.Fulfilled?;
    var textValue := false;
    RaceDecision(obs, deadline);
    if rows.tick <= text.tick {
      got, tick := rowsValue, rows.tick;
    } else {
      got, tick := textValue, text.tick;
    }
  }
}
