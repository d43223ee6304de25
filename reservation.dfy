/** The click loop `ensure` of one browser session. The browser and the
    dialog listener are replaced by an oracle that says, for each attempt,
    which cells of the booking table showed a reservation button (or that
    the lookup failed), whether the click went through, and whether the
    listener's confirmation signal arrived before the wait timed out. */
module Reservation {
  import opened GoLib
  import opened Slots

  /** What the browser and the listener gave in one attempt. `lookup` is
      `None` when the node search failed, otherwise the set of cells that
      hold a `PlaceBtn` image. */
  datatype ClickRound = ClickRound(lookup: Option<set<Cell>>, clickOk: bool, signalled: bool)

  datatype EnsureError =
    | SearchFailed       // the node search reported an error
    | AllBooked          // no candidate cell holds a button: all booked
    | ClickFailed        // clicking the node reported an error
    | Exhausted(tries: int)  // "booking failed after <retry> tries"

  /** The error `ensure` returns (`None` for nil), how many attempts it
      began, and the cells it clicked, one per click, in order. */
  datatype EnsureResult = EnsureResult(err: Option<EnsureError>, attempts: nat, clicked: seq<Cell>)

  /** The loop of `ensure` from attempt `i` on, having clicked `clicked`. */
  function EnsureFrom(rows: Rows, retry: int, env: nat -> ClickRound, i: nat, clicked: seq<Cell>): (res: EnsureResult)
    decreases retry - i
  {
    if i >= retry then EnsureResult(Some(Exhausted(retry)), i, clicked)
    else
      var r := env(i);
      match r.lookup
      case None => EnsureResult(Some(SearchFailed), i + 1, clicked)
      case Some(page) =>
        match FindSlot(rows, page)
        case None => EnsureResult(Some(AllBooked), i + 1, clicked)
        case Some(c) =>
          if !r.clickOk then EnsureResult(Some(ClickFailed), i + 1, clicked)
          else if r.signalled then EnsureResult(None, i + 1, clicked + [c])
          else EnsureFrom(rows, retry, env, i + 1, clicked + [c])
  }

  /** `ensure(ctx, id, reserveTime, result, retry, period)` against `env`. */
  function EnsureSpec(reserveTime: int, retry: int, env: nat -> ClickRound): (res: EnsureResult)
  {
    EnsureFrom(CellIndex(reserveTime), retry, env, 0, [])
  }

  /** An attempt that clicked a slot and then timed out waiting for the
      confirmation dialog, so that the loop goes on. */
  predicate TimedOut(rows: Rows, r: ClickRound)
  {
    r.lookup.Some? && FindSlot(rows, r.lookup.value).Some? && r.clickOk && !r.signalled
  }

  /** The cell an attempt clicks, when it clicks one. */
  predicate ClickedIn(rows: Rows, r: ClickRound, c: Cell)
  {
    r.lookup.Some? && FindSlot(rows, r.lookup.value) == Some(c) && r.clickOk
  }

  /** `ensure`, step by step as the Go loop runs. */
  method Ensure(reserveTime: int, retry: int, env: nat -> ClickRound)
    returns (err: Option<EnsureError>, attempts: nat, clicked: seq<Cell>)
    ensures EnsureResult(err, attempts, clicked) == EnsureSpec(reserveTime, retry, env)
  {
    var rows := CellIndex(reserveTime);
    clicked := [];
    attempts := 0;
    while attempts < retry
      invariant EnsureFrom(rows, retry, env, attempts, clicked) == EnsureSpec(reserveTime, retry, env)
      decreases retry - attempts
    {
      var round := env(attempts);
      attempts := attempts + 1;
      if round.lookup.None? {
        return Some(SearchFailed), attempts, clicked;
      }
      var node := FindSlot(rows, round.lookup.value);
      if node.None? {
        return Some(AllBooked), attempts, clicked;
      }
      if !round.clickOk {
        return Some(ClickFailed), attempts, clicked;
      }
      clicked := clicked + [node.value];
      if round.signalled {
        return None, attempts, clicked;
      }
    }
    return Some(Exhausted(retry)), attempts, clicked;
  }

  /** For every browser: the loop begins at most `retry` attempts; every
      click it makes is on the first candidate cell holding a button, one
      click per attempt, except that the last attempt clicks nothing when
      it failed before the click; success means the last click was
      confirmed. */
  lemma EnsureFromMeaning(rows: Rows, retry: int, env: nat -> ClickRound, i: nat, clicked: seq<Cell>)
    requires |clicked| == i
    requires forall j :: 0 <= j < i ==> ClickedIn(rows, env(j), clicked[j])
    ensures var r := EnsureFrom(rows, retry, env, i, clicked);
      && (if retry <= i then r.attempts == i else i < r.attempts <= retry)
      && |r.clicked| <= r.attempts <= |r.clicked| + 1
      && (forall j :: 0 <= j < |r.clicked| ==> ClickedIn(rows, env(j), r.clicked[j]))
      && (r.err.None? <==> r.attempts > i && |r.clicked| == r.attempts && env(r.attempts - 1).signalled)
      && (r.err == Some(Exhausted(retry)) ==> |r.clicked| == r.attempts == (if retry <= i then i else retry))
  {
    EnsureFromCounts(rows, retry, env, i, clicked);
    EnsureFromClicks(rows, retry, env, i, clicked);
  }

  /** The counting half: attempts, clicks and the success criterion. */
  lemma {:induction false} EnsureFromCounts(rows: Rows, retry: int, env: nat -> ClickRound, i: nat, clicked: seq<Cell>)
    requires |clicked| == i
    ensures var r := EnsureFrom(rows, retry, env, i, clicked);
      && (if retry <= i then r.attempts == i else i < r.attempts <= retry)
      && |r.clicked| <= r.attempts <= |r.clicked| + 1
      && (r.err.None? <==> r.attempts > i && |r.clicked| == r.attempts && env(r.attempts - 1).signalled)
      && (r.err == Some(Exhausted(retry)) ==> |r.clicked| == r.attempts == (if retry <= i then i else retry))
    decreases retry - i
  {
    if i < retry {
      var r := env(i);
      if r.lookup.Some? && FindSlot(rows, r.lookup.value).Some? && r.clickOk && !r.signalled {
        EnsureFromCounts(rows, retry, env, i + 1, clicked + [FindSlot(rows, r.lookup.value).value]);
      }
    }
  }

  /** The clicking half: each click is on that attempt's first candidate
      holding a button. */
  lemma {:induction false} EnsureFromClicks(rows: Rows, retry: int, env: nat -> ClickRound, i: nat, clicked: seq<Cell>)
    requires |clicked| == i
    requires forall j :: 0 <= j < i ==> ClickedIn(rows, env(j), clicked[j])
    ensures var r := EnsureFrom(rows, retry, env, i, clicked);
      forall j :: 0 <= j < |r.clicked| ==> ClickedIn(rows, env(j), r.clicked[j])
    decreases retry - i
  {
    if i < retry {
      var r := env(i);
      if r.lookup.Some? && FindSlot(rows, r.lookup.value).Some? && r.clickOk && !r.signalled {
        var next := clicked + [FindSlot(rows, r.lookup.value).value];
        assert forall j :: 0 <= j < i ==> next[j] == clicked[j];
        EnsureFromClicks(rows, retry, env, i + 1, next);
      }
    }
  }

  /** The facts of `EnsureFromMeaning` for a whole call of `ensure`. */
  lemma EnsureMeaning(reserveTime: int, retry: int, env: nat -> ClickRound)
    ensures var rows := CellIndex(reserveTime);
      var r := EnsureSpec(reserveTime, retry, env);
      && r.attempts <= (if retry <= 0 then 0 else retry)
      && |r.clicked| <= r.attempts <= |r.clicked| + 1
      && (forall j :: 0 <= j < |r.clicked| ==> ClickedIn(rows, env(j), r.clicked[j]))
      && (retry > 0 ==> 1 <= r.attempts)
      && (r.err.None? <==> r.attempts > 0 && |r.clicked| == r.attempts && env(r.attempts - 1).signalled)
      && (r.err == Some(Exhausted(retry)) ==> |r.clicked| == r.attempts == (if retry <= 0 then 0 else retry))
  {
    EnsureFromMeaning(CellIndex(reserveTime), retry, env, 0, []);
  }

  /** When the lookup finds no node, `ensure` reports "all booked" on that
      attempt without clicking, whatever the listener does. */
  lemma {:induction false} AllBookedAtOnce(rows: Rows, retry: int, env: nat -> ClickRound, i: nat, clicked: seq<Cell>, k: nat)
    requires i <= k < retry
    requires forall j :: i <= j < k ==> TimedOut(rows, env(j))
    requires env(k).lookup.Some? && forall d :: d in Candidates(rows) ==> d !in env(k).lookup.value
    ensures EnsureFrom(rows, retry, env, i, clicked).err == Some(AllBooked)
    ensures EnsureFrom(rows, retry, env, i, clicked).attempts == k + 1
    ensures |EnsureFrom(rows, retry, env, i, clicked).clicked| == |clicked| + k - i
    decreases k - i
  {
    FindSlotFirst(rows, env(k).lookup.value);
    if i < k {
      var c := FindSlot(rows, env(i).lookup.value).value;
      AllBookedAtOnce(rows, retry, env, i + 1, clicked + [c], k);
    }
  }

  /** A signal after a click ends the loop with success at once. */
  lemma {:induction false} SignalSucceeds(rows: Rows, retry: int, env: nat -> ClickRound, i: nat, clicked: seq<Cell>, k: nat)
    requires i <= k < retry
    requires forall j :: i <= j < k ==> TimedOut(rows, env(j))
    requires env(k).lookup.Some? && FindSlot(rows, env(k).lookup.value).Some?
    requires env(k).clickOk && env(k).signalled
    ensures EnsureFrom(rows, retry, env, i, clicked).err.None?
    ensures EnsureFrom(rows, retry, env, i, clicked).attempts == k + 1
    ensures |EnsureFrom(rows, retry, env, i, clicked).clicked| == |clicked| + k + 1 - i
    decreases k - i
  {
    if i < k {
      var c := FindSlot(rows, env(i).lookup.value).value;
      SignalSucceeds(rows, retry, env, i + 1, clicked + [c], k);
    }
  }

  /** When no signal ever arrives, `ensure` fails after exactly `retry`
      clicks. */
  lemma {:induction false} NoSignalExhausts(rows: Rows, retry: int, env: nat -> ClickRound, i: nat, clicked: seq<Cell>)
    requires i <= retry
    requires forall j :: i <= j < retry ==> TimedOut(rows, env(j))
    ensures EnsureFrom(rows, retry, env, i, clicked).err == Some(Exhausted(retry))
    ensures EnsureFrom(rows, retry, env, i, clicked).attempts == retry
    ensures |EnsureFrom(rows, retry, env, i, clicked).clicked| == |clicked| + retry - i
    decreases retry - i
  {
    if i < retry {
      var c := FindSlot(rows, env(i).lookup.value).value;
      NoSignalExhausts(rows, retry, env, i + 1, clicked + [c]);
    }
  }
}
