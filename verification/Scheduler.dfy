/** The premium-warning scheduler and its memory of what it has warned about. */
module Scheduler {
  import opened Wrappers

  /** What the chain says about a policy; times of day are Unix seconds. */
  datatype PremiumStatus = PremiumStatus(current: bool, paidUntil: int)

  const NANOSECONDS := 1_000_000_000

  /** `now` and `warningWindow` in nanoseconds. */
  function ShouldNotify(status: PremiumStatus, now: int, warningWindow: nat, lastNotifiedPaidUntil: int): bool {
    if status.current then false
    else if !(now > status.paidUntil * NANOSECONDS - warningWindow) then false
    else status.paidUntil != lastNotifiedPaidUntil
  }

  datatype Policy = Policy(policyId: int, holder: string)

  /** How one policy's turn goes: the chain's answer, the time, and whether the webhook accepts. */
  datatype Turn = Turn(policy: Policy, status: Result<PremiumStatus>, now: int, accepts: bool)

  datatype Warning = Warning(policyId: int, holder: string, paidUntil: int)

  /** `sent` records the warnings that the webhook accepted, oldest first. */
  datatype Memory = Memory(lastNotified: map<int, int>, sent: seq<Warning>)

  const FRESH := Memory(map[], [])

  /** A Go map read: 0 for a policy that has no entry. */
  function LastFor(lastNotified: map<int, int>, policyId: int): int {
    if policyId in lastNotified then lastNotified[policyId] else 0
  }

  /** Whether a turn ends with an accepted warning. */
  predicate Warns(m: Memory, window: nat, turn: Turn) {
    && turn.status.Success? && turn.accepts
    && ShouldNotify(turn.status.value, turn.now, window, LastFor(m.lastNotified, turn.policy.policyId))
  }

  function AfterTurn(m: Memory, window: nat, turn: Turn): Memory {
    if !Warns(m, window, turn) then m else
    var id, paidUntil := turn.policy.policyId, turn.status.value.paidUntil;
    Memory(m.lastNotified[id := paidUntil], m.sent + [Warning(id, turn.policy.holder, paidUntil)])
  }

  /** Any number of checks, turn by turn. */
  function AfterTurns(m: Memory, window: nat, turns: seq<Turn>): Memory {
    if turns == [] then m
    else AfterTurn(AfterTurns(m, window, turns[..|turns| - 1]), window, turns[|turns| - 1])
  }

  class Service {
    const warningWindow: nat
    var lastNotified: map<int, int>
    ghost var sent: seq<Warning>

    constructor (warningWindow: nat)
      ensures this.warningWindow == warningWindow && Contents() == FRESH
    {
      this.warningWindow := warningWindow;
      lastNotified := map[];
      sent := [];
    }

    ghost function Contents(): Memory
      reads this
    {
      Memory(lastNotified, sent)
    }

    /** One check of all active policies. A failed load ends it; a failed read or send skips the policy. */
    method CheckOnce(load: Result<seq<Turn>>)
      modifies this
      ensures Contents() == match load
                            case Failure(_) => old(Contents())
                            case Success(turns) => AfterTurns(old(Contents()), warningWindow, turns)
    {
      if load.Failure? {
        return;
      }
      var turns := load.value;
      for i := 0 to |turns|
        invariant Contents() == AfterTurns(old(Contents()), warningWindow, turns[..i])
      {
        assert turns[..i + 1][..i] == turns[..i];
        var turn := turns[i];
        if turn.status.Failure? {
          continue;
        }
        var status, id := turn.status.value, turn.policy.policyId;
        if !ShouldNotify(status, turn.now, warningWindow, LastFor(lastNotified, id)) {
          continue;
        }
        if !turn.accepts {
          continue;
        }
        sent := sent + [Warning(id, turn.policy.holder, status.paidUntil)];
        lastNotified := lastNotified[id := status.paidUntil];
      }
      assert turns[..|turns|] == turns;
    }
  }

  /** Checks one after another are one long list of turns. */
  lemma {:induction false} ChecksConcatenate(m: Memory, window: nat, first: seq<Turn>, second: seq<Turn>)
    ensures AfterTurns(m, window, first + second) == AfterTurns(AfterTurns(m, window, first), window, second)
  {
    if second == [] {
      assert first + second == first;
    } else {
      assert (first + second)[..|first + second| - 1] == first + second[..|second| - 1];
      ChecksConcatenate(m, window, first, second[..|second| - 1]);
    }
  }

  // ----- what a run warns about

  /** A turn that ends with an accepted warning if the memory does not hold the value read. */
  predicate Eligible(turn: Turn, window: nat, policyId: int) {
    && turn.policy.policyId == policyId && turn.status.Success? && turn.accepts
    && !turn.status.value.current
    && turn.now > turn.status.value.paidUntil * 1_000_000_000 - window
  }

  /** The paid-until values that a policy's eligible turns read. */
  function Readings(turns: seq<Turn>, window: nat, policyId: int): seq<int> {
    if turns == [] then [] else
    var rest, turn := Readings(turns[..|turns| - 1], window, policyId), turns[|turns| - 1];
    if Eligible(turn, window, policyId) then rest + [turn.status.value.paidUntil] else rest
  }

  /** The last value, or the 0 of an empty memory. */
  function Latest(values: seq<int>): int {
    if values == [] then 0 else values[|values| - 1]
  }

  /** `values` without leading zeros and without repetitions of the value just before. */
  function Changes(values: seq<int>): seq<int> {
    if values == [] then [] else
    var init, last := values[..|values| - 1], values[|values| - 1];
    if last == Latest(init) then Changes(init) else Changes(init) + [last]
  }

  /** The values that the accepted warnings for one policy were about. */
  function ValuesFor(sent: seq<Warning>, policyId: int): seq<int> {
    if sent == [] then [] else
    var rest, last := ValuesFor(sent[..|sent| - 1], policyId), sent[|sent| - 1];
    if last.policyId == policyId then rest + [last.paidUntil] else rest
  }

  lemma ValuesForSnoc(sent: seq<Warning>, w: Warning, policyId: int)
    ensures ValuesFor(sent + [w], policyId) ==
            if w.policyId == policyId then ValuesFor(sent, policyId) + [w.paidUntil] else ValuesFor(sent, policyId)
  {
    assert (sent + [w])[..|sent|] == sent;
  }

  lemma ChangesSnoc(values: seq<int>, v: int)
    ensures Changes(values + [v]) == if v == Latest(values) then Changes(values) else Changes(values) + [v]
  {
    assert (values + [v])[..|values|] == values;
  }

  /** What one turn adds to a policy's warnings, and to its memory. */
  lemma TurnAdds(m: Memory, window: nat, turn: Turn, policyId: int)
    ensures var m' := AfterTurn(m, window, turn);
            if Eligible(turn, window, policyId) && turn.status.value.paidUntil != LastFor(m.lastNotified, policyId)
            then && ValuesFor(m'.sent, policyId) == ValuesFor(m.sent, policyId) + [turn.status.value.paidUntil]
                 && LastFor(m'.lastNotified, policyId) == turn.status.value.paidUntil
            else && ValuesFor(m'.sent, policyId) == ValuesFor(m.sent, policyId)
                 && LastFor(m'.lastNotified, policyId) == LastFor(m.lastNotified, policyId)
  {
    hide ValuesFor;
    if Warns(m, window, turn) {
      ValuesForSnoc(m.sent, Warning(turn.policy.policyId, turn.policy.holder, turn.status.value.paidUntil), policyId);
    }
  }

  /** Whatever is read and whichever sends fail, a policy is warned about exactly the changes in what its
      eligible turns read, counting from 0; and the memory is the last of those readings. */
  lemma {:induction false} WarningsAreChanges(window: nat, turns: seq<Turn>, policyId: int)
    ensures var m, readings := AfterTurns(FRESH, window, turns), Readings(turns, window, policyId);
            ValuesFor(m.sent, policyId) == Changes(readings) && LastFor(m.lastNotified, policyId) == Latest(readings)
  {
    if turns != [] {
      hide AfterTurn, ValuesFor, Changes, LastFor, Eligible;
      var rest, turn := turns[..|turns| - 1], turns[|turns| - 1];
      WarningsAreChanges(window, rest, policyId);
      TurnAdds(AfterTurns(FRESH, window, rest), window, turn, policyId);
      if Eligible(turn, window, policyId) {
        ChangesSnoc(Readings(rest, window, policyId), ReadingOf(turn, window, policyId));
      }
    }
  }

  function ReadingOf(turn: Turn, window: nat, policyId: int): int
    requires Eligible(turn, window, policyId)
  {
    turn.status.value.paidUntil
  }

  /** No two neighbours are equal, and the first value is not 0. */
  predicate NeverTwiceInARow(values: seq<int>) {
    && (values != [] ==> values[0] != 0)
    && forall i :: 0 < i < |values| ==> values[i - 1] != values[i]
  }

  lemma {:induction false} ChangesDiffer(values: seq<int>)
    ensures NeverTwiceInARow(Changes(values))
    ensures Latest(Changes(values)) == Latest(values)
  {
    if values != [] {
      ChangesDiffer(values[..|values| - 1]);
    }
  }

  /** Two consecutive warnings for a policy are about different paid-until values, its first warning is
      not about the value 0, and the memory holds the value of its latest warning. */
  lemma {:induction false} ConsecutiveWarningsDiffer(window: nat, turns: seq<Turn>, policyId: int)
    ensures var m := AfterTurns(FRESH, window, turns);
            && NeverTwiceInARow(ValuesFor(m.sent, policyId))
            && LastFor(m.lastNotified, policyId) == Latest(ValuesFor(m.sent, policyId))
  {
    hide NeverTwiceInARow, Latest, ValuesFor, AfterTurns, Changes;
    WarningsAreChanges(window, turns, policyId);
    ChangesDiffer(Readings(turns, window, policyId));
  }

  /** A warning names policy, holder and value of the eligible turn it came from. */
  predicate CameFrom(w: Warning, turn: Turn, window: nat) {
    && Eligible(turn, window, w.policyId) && turn.policy.holder == w.holder
    && turn.status.value.paidUntil == w.paidUntil
  }

  ghost predicate CameFromSome(w: Warning, turns: seq<Turn>, window: nat) {
    exists j :: 0 <= j < |turns| && CameFrom(w, turns[j], window)
  }

  /** Every accepted warning comes from an eligible turn, and goes to that turn's holder. */
  lemma {:induction false} WarningsNameTheirTurn(window: nat, turns: seq<Turn>)
    ensures forall w :: w in AfterTurns(FRESH, window, turns).sent ==> CameFromSome(w, turns, window)
  {
    if turns != [] {
      var n := |turns| - 1;
      var before, after := AfterTurns(FRESH, window, turns[..n]).sent, AfterTurns(FRESH, window, turns).sent;
      WarningsNameTheirTurn(window, turns[..n]);
      forall w | w in after
        ensures CameFromSome(w, turns, window)
      {
        if w in before {
          var j :| 0 <= j < n && CameFrom(w, turns[..n][j], window);
          assert CameFrom(w, turns[j], window);
        } else {
          assert CameFrom(w, turns[n], window);
        }
      }
    }
  }

  // ----- which values are warned about, and which twice

  /** Reading `j` is of `v`, and a 0 is not the first thing read. */
  predicate StandsOut(readings: seq<int>, j: nat, v: int) {
    j < |readings| && readings[j] == v && (v == 0 ==> exists i :: 0 <= i < j && readings[i] != 0)
  }

  /** After reading `i` of `v` the value changes at `j`, and is `v` again at `k`. */
  predicate ComesBack(readings: seq<int>, i: nat, j: nat, k: nat, v: int) {
    StandsOut(readings, i, v) && i < j < k < |readings| && readings[j] != v && readings[k] == v
  }

  ghost predicate SomeStandsOut(readings: seq<int>, v: int) {
    exists j: nat :: StandsOut(readings, j, v)
  }

  ghost predicate SomeComesBack(readings: seq<int>, v: int) {
    exists i: nat, j: nat, k: nat :: ComesBack(readings, i, j, k, v)
  }

  predicate Twice(values: seq<int>, v: int) {
    exists i, j :: 0 <= i < j < |values| && values[i] == v && values[j] == v
  }

  /** The last of `init + [last]` adds nothing new if it repeats the one before. */
  lemma StandsOutSnoc(init: seq<int>, last: int, v: int)
    ensures SomeStandsOut(init + [last], v) <==> SomeStandsOut(init, v) || (last != Latest(init) && last == v)
  {
    var more, n := init + [last], |init|;
    if SomeStandsOut(init, v) {
      var j: nat :| StandsOut(init, j, v);
      assert forall i :: 0 <= i < n ==> more[i] == init[i];
      assert StandsOut(more, j, v);
    } else if last != Latest(init) && last == v {
      if v == 0 {
        assert more[n - 1] == Latest(init) != 0;
      }
      assert StandsOut(more, n, v);
    }
    if SomeStandsOut(more, v) {
      var j: nat :| StandsOut(more, j, v);
      if j < n {
        assert StandsOut(init, j, v);
      } else if last == Latest(init) {
        assert StandsOut(init, n - 1, v);
      }
    }
  }

  lemma {:induction false} ChangesHoldExactly(readings: seq<int>, v: int)
    ensures v in Changes(readings) <==> SomeStandsOut(readings, v)
  {
    if readings != [] {
      hide SomeStandsOut;
      var init, last := readings[..|readings| - 1], readings[|readings| - 1];
      assert readings == init + [last];
      ChangesHoldExactly(init, v);
      StandsOutSnoc(init, last, v);
    } else {
      assert forall j: nat :: !StandsOut(readings, j, v);
    }
  }

  lemma ComesBackSnoc(init: seq<int>, last: int, v: int)
    ensures SomeComesBack(init + [last], v) <==>
            SomeComesBack(init, v) || (last != Latest(init) && last == v && SomeStandsOut(init, v))
  {
    var more, n := init + [last], |init|;
    assert forall i :: 0 <= i < n ==> more[i] == init[i];
    if SomeComesBack(init, v) {
      var i: nat, j: nat, k: nat :| ComesBack(init, i, j, k, v);
      assert ComesBack(more, i, j, k, v);
    } else if last != Latest(init) && last == v && SomeStandsOut(init, v) {
      var i: nat :| StandsOut(init, i, v);
      assert ComesBack(more, i, n - 1, n, v);
    }
    if SomeComesBack(more, v) {
      var i: nat, j: nat, k: nat :| ComesBack(more, i, j, k, v);
      assert StandsOut(init, i, v);
      if k < n {
        assert ComesBack(init, i, j, k, v);
      } else if last == Latest(init) {
        assert ComesBack(init, i, j, n - 1, v);
      }
    }
  }

  lemma TwiceSnoc(values: seq<int>, last: int, v: int)
    ensures Twice(values + [last], v) <==> Twice(values, v) || (last == v && v in values)
  {
    var more := values + [last];
    if Twice(values, v) {
      var i, j :| 0 <= i < j < |values| && values[i] == v && values[j] == v;
      assert more[i] == v && more[j] == v;
    } else if last == v && v in values {
      var i :| 0 <= i < |values| && values[i] == v;
      assert more[i] == v && more[|values|] == v;
    }
  }

  lemma {:induction false} ChangesRepeatExactly(readings: seq<int>, v: int)
    ensures Twice(Changes(readings), v) <==> SomeComesBack(readings, v)
  {
    if readings != [] {
      hide SomeComesBack, SomeStandsOut, Twice;
      var init, last := readings[..|readings| - 1], readings[|readings| - 1];
      assert readings == init + [last];
      ChangesRepeatExactly(init, v);
      ChangesHoldExactly(init, v);
      ComesBackSnoc(init, last, v);
      TwiceSnoc(Changes(init), last, v);
    } else {
      assert forall i: nat, j: nat, k: nat :: !ComesBack(readings, i, j, k, v);
    }
  }

  /** A policy is warned about a value exactly if an eligible turn read it, and, if the value is 0, an
      earlier eligible turn read another. */
  lemma {:induction false} WarnedAboutExactly(window: nat, turns: seq<Turn>, policyId: int, v: int)
    ensures v in ValuesFor(AfterTurns(FRESH, window, turns).sent, policyId) <==>
            SomeStandsOut(Readings(turns, window, policyId), v)
  {
    hide AfterTurns, ValuesFor, SomeStandsOut, Readings, Changes;
    WarningsAreChanges(window, turns, policyId);
    ChangesHoldExactly(Readings(turns, window, policyId), v);
  }

  /** A policy is warned twice about a value exactly if its eligible turns read that value (after another,
      if the value is 0), then a different one, and then that value again. */
  lemma {:induction false} WarnedTwiceExactly(window: nat, turns: seq<Turn>, policyId: int, v: int)
    ensures Twice(ValuesFor(AfterTurns(FRESH, window, turns).sent, policyId), v) <==>
            SomeComesBack(Readings(turns, window, policyId), v)
  {
    hide AfterTurns, ValuesFor, SomeComesBack, Readings, Changes, Twice;
    WarningsAreChanges(window, turns, policyId);
    ChangesRepeatExactly(Readings(turns, window, policyId), v);
  }

  // ----- when observed values never decrease

  predicate Reads(turn: Turn, policyId: int) {
    turn.policy.policyId == policyId && turn.status.Success?
  }

  /** No policy's paid-until value is ever seen to go down. */
  predicate NeverDecreases(turns: seq<Turn>) {
    forall i, j :: 0 <= i < j < |turns| && turns[i].status.Success? && Reads(turns[j], turns[i].policy.policyId) ==>
      turns[i].status.value.paidUntil <= turns[j].status.value.paidUntil
  }

  predicate Sorted(values: seq<int>) {
    forall i, j :: 0 <= i < j < |values| ==> values[i] <= values[j]
  }

  lemma {:induction false} ReadBefore(turns: seq<Turn>, window: nat, policyId: int, v: int) returns (j: nat)
    requires v in Readings(turns, window, policyId)
    ensures j < |turns| && Reads(turns[j], policyId) && turns[j].status.value.paidUntil == v
  {
    j := |turns| - 1;
    if !(Eligible(turns[j], window, policyId) && turns[j].status.value.paidUntil == v) {
      j := ReadBefore(turns[..j], window, policyId, v);
    }
  }

  /** No reading is above a later read of the policy. */
  lemma ReadingsBelow(turns: seq<Turn>, window: nat, policyId: int, turn: Turn)
    requires NeverDecreases(turns + [turn]) && Reads(turn, policyId)
    ensures forall v :: v in Readings(turns, window, policyId) ==> v <= turn.status.value.paidUntil
  {
    forall v | v in Readings(turns, window, policyId)
      ensures v <= turn.status.value.paidUntil
    {
      var j := ReadBefore(turns, window, policyId, v);
      assert (turns + [turn])[j] == turns[j] && (turns + [turn])[|turns|] == turn;
    }
  }

  lemma SortedSnoc(values: seq<int>, v: int)
    requires Sorted(values) && forall x :: x in values ==> x <= v
    ensures Sorted(values + [v])
  {
    assert forall i :: 0 <= i < |values| ==> values[i] in values;
  }

  lemma {:induction false} ReadingsSorted(turns: seq<Turn>, window: nat, policyId: int)
    requires NeverDecreases(turns)
    ensures Sorted(Readings(turns, window, policyId))
  {
    if turns != [] {
      var rest, turn := turns[..|turns| - 1], turns[|turns| - 1];
      assert turns == rest + [turn];
      ReadingsSorted(rest, window, policyId);
      if Eligible(turn, window, policyId) {
        ReadingsBelow(rest, window, policyId, turn);
        SortedSnoc(Readings(rest, window, policyId), turn.status.value.paidUntil);
      }
    }
  }

  lemma SortedNeverComesBack(readings: seq<int>, v: int)
    requires Sorted(readings)
    ensures !SomeComesBack(readings, v)
  {
  }

  /** If observed values never decrease, no policy is warned twice about one paid-until value; and after a
      turn that reads a non-zero value, lapsed or not, the memory holds that value exactly when a warning
      about it has been accepted. */
  lemma {:induction false} WarnedAtMostOnce(window: nat, turns: seq<Turn>, policyId: int, v: int)
    requires NeverDecreases(turns)
    ensures var m := AfterTurns(FRESH, window, turns);
            && !Twice(ValuesFor(m.sent, policyId), v)
            && (turns != [] && Reads(turns[|turns| - 1], policyId) &&
                turns[|turns| - 1].status.value.paidUntil == v != 0 ==>
                  (LastFor(m.lastNotified, policyId) == v <==> v in ValuesFor(m.sent, policyId)))
  {
    hide AfterTurns, ValuesFor, Twice, SomeComesBack, NeverDecreases, Sorted;
    ReadingsSorted(turns, window, policyId);
    SortedNeverComesBack(Readings(turns, window, policyId), v);
    WarnedTwiceExactly(window, turns, policyId, v);
    WarnedAboutExactly(window, turns, policyId, v);
    WarningsAreChanges(window, turns, policyId);
    if turns != [] && Reads(turns[|turns| - 1], policyId) && turns[|turns| - 1].status.value.paidUntil == v != 0 {
      NewestReading(turns, window, policyId, v);
    }
  }

  lemma SortedTop(values: seq<int>, v: int)
    requires Sorted(values) && v in values && forall x :: x in values ==> x <= v
    ensures Latest(values) == v
  {
    assert values[|values| - 1] in values;
  }

  /** The newest value read is a reading exactly if it is the last one. */
  lemma NewestReading(turns: seq<Turn>, window: nat, policyId: int, v: int)
    requires NeverDecreases(turns) && turns != [] && Reads(turns[|turns| - 1], policyId)
    requires turns[|turns| - 1].status.value.paidUntil == v != 0
    ensures Latest(Readings(turns, window, policyId)) == v <==> SomeStandsOut(Readings(turns, window, policyId), v)
  {
    var readings := Readings(turns, window, policyId);
    var rest, turn := turns[..|turns| - 1], turns[|turns| - 1];
    assert turns == rest + [turn];
    ReadingsSorted(turns, window, policyId);
    ReadingsBelow(rest, window, policyId, turn);
    assert readings == Readings(rest, window, policyId) || readings == Readings(rest, window, policyId) + [v];
    if Latest(readings) == v {
      assert StandsOut(readings, |readings| - 1, v);
    }
    if SomeStandsOut(readings, v) {
      SortedTop(readings, v);
    }
  }

  // ----- samples

  function LapsedTurn(paidUntil: int): Turn {
    Turn(Policy(1, "0x1"), Success(PremiumStatus(false, paidUntil)), 10 * NANOSECONDS, true)
  }

  /** If values do go down, a value can be warned about twice. */
  lemma DecreaseRepeatsWarning() returns (turns: seq<Turn>)
    ensures !NeverDecreases(turns)
    ensures var sent := AfterTurns(FRESH, 0, turns).sent;
            |sent| == 3 && sent[0] == sent[2]
  {
    var five, six := LapsedTurn(5), LapsedTurn(6);
    turns := [five, six, five];
    assert turns[..2] == [five, six] && [five, six][..1] == [five] && [five][..0] == [];
    assert AfterTurns(FRESH, 0, []) == FRESH;
    assert AfterTurns(FRESH, 0, [five]) == Memory(map[1 := 5], [Warning(1, "0x1", 5)]);
    assert AfterTurns(FRESH, 0, [five, six]) == Memory(map[1 := 6], [Warning(1, "0x1", 5), Warning(1, "0x1", 6)]);
    assert Reads(turns[2], turns[1].policy.policyId);
  }

  /** A lapsed premium paid until 0 is not warned about when it is the first thing read, and is when 5 was
      read before. */
  lemma ZeroNeedsAnEarlierReading()
    ensures AfterTurns(FRESH, 0, [LapsedTurn(0)]).sent == []
    ensures AfterTurns(FRESH, 0, [LapsedTurn(5), LapsedTurn(0)]).sent == [Warning(1, "0x1", 5), Warning(1, "0x1", 0)]
  {
    var five, zero := LapsedTurn(5), LapsedTurn(0);
    assert [zero][..0] == [] && [five][..0] == [] && [five, zero][..1] == [five];
    assert AfterTurns(FRESH, 0, []) == FRESH;
    assert AfterTurns(FRESH, 0, [five]) == Memory(map[1 := 5], [Warning(1, "0x1", 5)]);
  }
}
