/**
 The race: `StartRace` raises `RaceStart` and then moves every car once per
 round, in argument order; `SubscribeToEvents` attaches to a car's `Finish`
 event a relay that raises the race's `RaceFinish` with the same message.

 The source's `while (true)` never ends; here a race is run for a given
 number of rounds. A relay lives on the car's `Finish` event, so each car
 is paired with the number of relays attached to it (subscribing the same
 car twice forwards each of its messages twice).
 */
module Race {
  import opened Cars

  datatype RaceEvent = RaceStart | RaceFinish(message: string)

  /** A car together with the number of race relays on its `Finish` event. */
  datatype Entrant = Entrant(car: Car, relays: nat)

  /** The cars after some moves, with every race event raised, in order. */
  datatype Raced = Raced(entrants: seq<Entrant>, events: seq<RaceEvent>)

  /** `SubscribeToEvents`: one more relay on the car's `Finish` event. */
  function Subscribe(e: Entrant): (r: Entrant)
    ensures r.car == e.car
    ensures r.relays == e.relays + 1
  {
    e.(relays := e.relays + 1)
  }

  /** The race events raised when a car's `Finish` event carries
      `messages`: each message, unchanged and in order, once per relay. */
  function Relay(messages: seq<string>, relays: nat): (r: seq<RaceEvent>)
    ensures |r| == |messages| * relays
    ensures forall ev <- r :: ev.RaceFinish? && ev.message in messages
  {
    if |messages| == 0 then []
    else Repeat(RaceFinish(messages[0]), relays) + Relay(messages[1..], relays)
  }

  /** The relayed events come in blocks, one per message and in message
      order: message `k` is forwarded, unchanged, `relays` times in a row,
      after the relays of the messages before it and before those of the
      messages after it. */
  lemma RelayInOrder(messages: seq<string>, relays: nat, k: nat)
    requires k < |messages|
    ensures Relay(messages, relays)
              == Relay(messages[..k], relays) + Repeat(RaceFinish(messages[k]), relays)
                 + Relay(messages[k + 1..], relays)
  {
    assert messages == messages[..k] + messages[k..];
    RelayAppend(messages[..k], messages[k..], relays);
    assert messages[k..][0] == messages[k];
    assert messages[k..][1..] == messages[k + 1..];
  }

  /** Relaying two runs of messages is relaying each in turn. */
  lemma {:induction false} RelayAppend(a: seq<string>, b: seq<string>, relays: nat)
    ensures Relay(a + b, relays) == Relay(a, relays) + Relay(b, relays)
    decreases |a|
  {
    if |a| == 0 {
      assert a + b == b;
    } else {
      assert (a + b)[0] == a[0];
      assert (a + b)[1..] == a[1..] + b;
      RelayAppend(a[1..], b, relays);
    }
  }

  /** One car's turn in a round: it moves, and its finish message, if any,
      reaches `RaceFinish` once per relay. */
  function MoveEntrant(e: Entrant): (r: Raced)
    ensures r.entrants == [Entrant(Move(e.car).car, e.relays)]
    ensures |r.events| == if Move(e.car).car.position >= FinishLine then e.relays else 0
    ensures forall ev <- r.events :: ev == RaceFinish(FinishMessage(e.car.model))
  {
    var moved := Move(e.car);
    Raced([Entrant(moved.car, e.relays)], Relay(moved.messages, e.relays))
  }

  /** One iteration of the race loop: every car moves once, in order. */
  function Round(es: seq<Entrant>): (r: Raced)
    ensures |r.entrants| == |es|
    ensures forall i :: 0 <= i < |es| ==>
              r.entrants[i] == Entrant(Move(es[i].car).car, es[i].relays)
    ensures forall ev <- r.events :: ev.RaceFinish?
    decreases |es|
  {
    if |es| == 0 then Raced([], [])
    else
      var before := Round(es[..|es| - 1]);
      var turn := MoveEntrant(es[|es| - 1]);
      Raced(before.entrants + turn.entrants, before.events + turn.events)
  }

  /** A round of the race loop written as the source writes it: a loop over
      the cars in argument order. */
  method PlayRound(es: seq<Entrant>) returns (moved: seq<Entrant>, events: seq<RaceEvent>)
    ensures moved == Round(es).entrants
    ensures events == Round(es).events
  {
    moved := [];
    events := [];
    var k := 0;
    while k < |es|
      invariant 0 <= k <= |es|
      invariant moved == Round(es[..k]).entrants
      invariant events == Round(es[..k]).events
    {
      var turn := MoveEntrant(es[k]);
      assert es[..k + 1][..k] == es[..k];
      moved := moved + turn.entrants;
      events := events + turn.events;
      k := k + 1;
    }
    assert es[..k] == es;
  }

  /** A message is forwarded in a round iff some subscribed car crossed or
      stayed past the line on its move and the message is that car's
      finish message. */
  lemma {:induction false} RoundForwardsExactly(es: seq<Entrant>, m: string)
    ensures RaceFinish(m) in Round(es).events <==>
              exists i :: 0 <= i < |es| && es[i].relays > 0
                && Move(es[i].car).car.position >= FinishLine
                && m == FinishMessage(es[i].car.model)
    decreases |es|
  {
    if |es| > 0 {
      var prefix := es[..|es| - 1];
      var last := es[|es| - 1];
      RoundForwardsExactly(prefix, m);
      var turn := Relay(Move(last.car).messages, last.relays);
      assert RaceFinish(m) in turn <==>
               last.relays > 0 && Move(last.car).car.position >= FinishLine
               && m == FinishMessage(last.car.model) by {
        if last.relays > 0 && Move(last.car).car.position >= FinishLine
           && m == FinishMessage(last.car.model) {
          assert Move(last.car).messages == [m];
          assert turn[0] == RaceFinish(m);
        }
      }
      assert forall i :: 0 <= i < |prefix| ==> prefix[i] == es[i];
    }
  }

  /** A round in which no car has a relay raises no race event. */
  lemma {:induction false} UnsubscribedRoundIsSilent(es: seq<Entrant>)
    requires forall i :: 0 <= i < |es| ==> es[i].relays == 0
    ensures Round(es).events == []
  {
    if Round(es).events != [] {
      var ev := Round(es).events[0];
      assert ev in Round(es).events;
      RoundForwardsExactly(es, ev.message);
    }
  }

  /** `n` iterations of the race loop. */
  function Rounds(es: seq<Entrant>, n: nat): (r: Raced)
    ensures |r.entrants| == |es|
    ensures forall i :: 0 <= i < |es| ==>
              r.entrants[i].relays == es[i].relays && r.entrants[i].car.model == es[i].car.model
    ensures forall ev <- r.events :: ev.RaceFinish?
  {
    if n == 0 then Raced(es, [])
    else
      var before := Rounds(es, n - 1);
      var last := Round(before.entrants);
      Raced(last.entrants, before.events + last.events)
  }

  /** After `n` rounds every car has moved exactly `n` times and keeps its
      relays. */
  lemma {:induction false} RoundsMoveEachCar(es: seq<Entrant>, n: nat)
    ensures forall i :: 0 <= i < |es| ==>
              Rounds(es, n).entrants[i] == Entrant(MoveN(es[i].car, n).car, es[i].relays)
  {
    if n > 0 {
      RoundsMoveEachCar(es, n - 1);
    }
  }

  /** `ev` is the unchanged finish message of a car of `es` that has at
      least one relay and ends one of its first `n` moves at or past the
      line. */
  predicate ForwardedWithin(es: seq<Entrant>, n: nat, ev: RaceEvent) {
    exists i, k :: 0 <= i < |es| && 1 <= k <= n && es[i].relays > 0
      && MoveN(es[i].car, k).car.position >= FinishLine
      && ev == RaceFinish(FinishMessage(es[i].car.model))
  }

  /** Round `n` forwards a message iff some subscribed car ends its `n`-th
      move at or past the line and the message is that car's. */
  lemma LastRoundForwardsExactly(es: seq<Entrant>, n: nat, m: string)
    requires n > 0
    ensures RaceFinish(m) in Round(Rounds(es, n - 1).entrants).events <==>
              exists i :: 0 <= i < |es| && es[i].relays > 0
                && MoveN(es[i].car, n).car.position >= FinishLine
                && m == FinishMessage(es[i].car.model)
  {
    var mid := Rounds(es, n - 1).entrants;
    RoundsMoveEachCar(es, n - 1);
    RoundForwardsExactly(mid, m);
    if RaceFinish(m) in Round(mid).events {
      var i :| 0 <= i < |mid| && mid[i].relays > 0
               && Move(mid[i].car).car.position >= FinishLine
               && m == FinishMessage(mid[i].car.model);
      SameCarAfterRounds(es, n, i);
    }
    if exists i :: 0 <= i < |es| && es[i].relays > 0
         && MoveN(es[i].car, n).car.position >= FinishLine
         && m == FinishMessage(es[i].car.model) {
      var i :| 0 <= i < |es| && es[i].relays > 0
               && MoveN(es[i].car, n).car.position >= FinishLine
               && m == FinishMessage(es[i].car.model);
      SameCarAfterRounds(es, n, i);
      assert mid[i].relays > 0 && Move(mid[i].car).car.position >= FinishLine
             && m == FinishMessage(mid[i].car.model);
    }
  }

  /** Car `i` after `n - 1` rounds keeps its model and relays, and its next
      move is its `n`-th. */
  lemma SameCarAfterRounds(es: seq<Entrant>, n: nat, i: int)
    requires n > 0 && 0 <= i < |es|
    ensures Rounds(es, n - 1).entrants[i].relays == es[i].relays
    ensures Rounds(es, n - 1).entrants[i].car.model == es[i].car.model
    ensures Move(Rounds(es, n - 1).entrants[i].car).car == MoveN(es[i].car, n).car
  {
    RoundsMoveEachCar(es, n - 1);
  }

  /** Reaching the line within `n` moves is reaching it within `n - 1`
      moves or on move `n`. */
  lemma ForwardedWithinStep(es: seq<Entrant>, n: nat, m: string)
    requires n > 0
    ensures ForwardedWithin(es, n, RaceFinish(m)) <==>
              ForwardedWithin(es, n - 1, RaceFinish(m))
              || exists i :: 0 <= i < |es| && es[i].relays > 0
                   && MoveN(es[i].car, n).car.position >= FinishLine
                   && m == FinishMessage(es[i].car.model)
  {
    if ForwardedWithin(es, n, RaceFinish(m)) {
      var i, k :| 0 <= i < |es| && 1 <= k <= n && es[i].relays > 0
        && MoveN(es[i].car, k).car.position >= FinishLine
        && RaceFinish(m) == RaceFinish(FinishMessage(es[i].car.model));
      if k < n {
        assert ForwardedWithin(es, n - 1, RaceFinish(m));
      }
    }
  }

  /** Over `n` rounds a message is forwarded iff some subscribed car ends
      one of its first `n` moves at or past the line and the message is
      that car's: a finishing subscribed car always reaches `RaceFinish`,
      and nothing else does. */
  lemma {:induction false} RoundsForwardExactly(es: seq<Entrant>, n: nat, m: string)
    ensures RaceFinish(m) in Rounds(es, n).events <==> ForwardedWithin(es, n, RaceFinish(m))
  {
    if n > 0 {
      RoundsForwardExactly(es, n - 1, m);
      LastRoundForwardsExactly(es, n, m);
      ForwardedWithinStep(es, n, m);
      var before := Rounds(es, n - 1);
      var last := Round(before.entrants);
      assert Rounds(es, n).events == before.events + last.events;
    }
  }

  /** `RoundsForwardExactly` for every event and every finishing car. */
  lemma RoundsForwardAll(es: seq<Entrant>, n: nat)
    ensures forall ev <- Rounds(es, n).events :: ForwardedWithin(es, n, ev)
    ensures forall i, k :: (0 <= i < |es| && 1 <= k <= n && es[i].relays > 0
              && MoveN(es[i].car, k).car.position >= FinishLine) ==>
              RaceFinish(FinishMessage(es[i].car.model)) in Rounds(es, n).events
  {
    forall ev <- Rounds(es, n).events
      ensures ForwardedWithin(es, n, ev)
    {
      RoundsForwardExactly(es, n, ev.message);
    }
    forall i, k | 0 <= i < |es| && 1 <= k <= n && es[i].relays > 0
        && MoveN(es[i].car, k).car.position >= FinishLine
      ensures RaceFinish(FinishMessage(es[i].car.model)) in Rounds(es, n).events
    {
      RoundsForwardExactly(es, n, FinishMessage(es[i].car.model));
    }
  }

  /** The race loop run for `n` rounds: `RaceStart` first, then exactly the
      unchanged finish messages of subscribed cars that reach the line,
      and every car moved `n` times. */
  function StartRace(es: seq<Entrant>, n: nat): (r: Raced)
    ensures |r.events| >= 1 && r.events[0] == RaceStart
    ensures forall j :: 1 <= j < |r.events| ==> ForwardedWithin(es, n, r.events[j])
    ensures forall i, k :: (0 <= i < |es| && 1 <= k <= n && es[i].relays > 0
              && MoveN(es[i].car, k).car.position >= FinishLine) ==>
              RaceFinish(FinishMessage(es[i].car.model)) in r.events[1..]
    ensures |r.entrants| == |es|
    ensures forall i :: 0 <= i < |es| ==>
              r.entrants[i] == Entrant(MoveN(es[i].car, n).car, es[i].relays)
  {
    var played := Rounds(es, n);
    RoundsMoveEachCar(es, n);
    RoundsForwardAll(es, n);
    assert ([RaceStart] + played.events)[1..] == played.events;
    assert forall j :: 1 <= j < |played.events| + 1 ==>
             ([RaceStart] + played.events)[j] == played.events[j - 1];
    Raced(played.entrants, [RaceStart] + played.events)
  }

  /** A round with a single car is that car's turn. */
  lemma RoundOfOne(e: Entrant)
    ensures Round([e]).events == Relay(Move(e.car).messages, e.relays)
  {
    assert [e][..0] == [];
    assert Round([e]) == MoveEntrant(e);
  }

  /** With one car in the race, its race events are its own finish
      messages, each forwarded once per relay. */
  lemma {:induction false} SoloRoundsRelay(e: Entrant, n: nat)
    ensures Rounds([e], n).events == Relay(MoveN(e.car, n).messages, e.relays)
  {
    if n > 0 {
      SoloRoundsRelay(e, n - 1);
      RoundsMoveEachCar([e], n - 1);
      var before := MoveN(e.car, n - 1);
      var entrant := Entrant(before.car, e.relays);
      var played := Rounds([e], n - 1);
      assert played.entrants == [entrant];
      RoundOfOne(entrant);
      assert Rounds([e], n).events == played.events + Round([entrant]).events;
      RelayAppend(before.messages, Move(before.car).messages, e.relays);
    }
  }

  /** A freshly built car, subscribed once and raced alone for `n`
      rounds: after `RaceStart`, its finish message is forwarded unchanged
      once for every move from its first finishing move on. */
  lemma SoloRaceTrace(model: string, speed: Int32Arith.Int32, n: nat)
    requires speed > 0
    requires n * speed <= Int32Arith.MaxValue
    ensures StartRace([Subscribe(Entrant(NewCar(model, speed), 0))], n).events
              == [RaceStart] + Repeat(RaceFinish(FinishMessage(model)), FinishCount(speed, n))
  {
    var e := Subscribe(Entrant(NewCar(model, speed), 0));
    SoloRoundsRelay(e, n);
    MessagesFromStart(model, speed, n);
    RelayOnceRepeat(FinishMessage(model), FinishCount(speed, n));
  }

  /** Relaying `count` copies of a message through one relay gives `count`
      copies of the race event. */
  lemma {:induction false} RelayOnceRepeat(m: string, count: nat)
    ensures Relay(Repeat(m, count), 1) == Repeat(RaceFinish(m), count)
  {
    if count > 0 {
      RelayOnceRepeat(m, count - 1);
      RelayAppend(Repeat(m, count - 1), [m], 1);
      assert Relay([m], 1) == [RaceFinish(m)] by {
        assert Repeat(RaceFinish(m), 1) == [RaceFinish(m)];
      }
    }
  }
}
