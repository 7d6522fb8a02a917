# Module12Practice race, cars and property notification — a Dafny model

This project models the event-driven core of `Module12Practice`, a small C#
program about events and delegates. The model covers three parts:

- **Cars** (`Car`, `SportsCar`, `PassengerCar`, `Truck`, `Bus`). A car has a
  model name, a speed and a position that starts at 0. `Move` adds the speed
  to the position. When the new position is 100 or more, `Move` raises
  `Finish` with the message `"<model> финишировал!"`.
- **The race** (`RaceGame`). `StartRace` raises `RaceStart`, then moves every
  car once per round, in argument order. `SubscribeToEvents` attaches a relay
  to a car's `Finish` event. The relay re-raises the car's message, unchanged,
  as `RaceFinish`.
- **The `Name` property** (`MyClass`). Its backing field starts as `null`.
  Assigning a different value stores it and raises `PropertyChanged` with
  `"Name"`. Assigning an equal value does nothing.

Everything is pure functions over immutable datatypes. Each operation
returns the new state together with the events it raised, oldest first:
`Cars.Moved`, `Race.Raced` and `PropertyChange.Assigned`. An event is
recorded when it is raised, whether or not anyone is listening.

Design decisions:

- **The four car classes are one `Car` datatype.** They differ only in the
  range `Random.Next(lo, hi)` draws the speed from. That draw is `lo <= s < hi`.
  The drawn speed is a parameter of `Cars.NewCarOfKind`, and the kind's range
  is its precondition.
- **No once-only guard on the finish message.** Every move that ends at or
  past the line raises the message again, as the code does. A one-shot finish
  notification may have been intended, but the code has no such guard, and
  the model follows the code.
- **`Position` is a C# `int`.** `Position += Speed` is unchecked, so it wraps
  at 2^31. The model applies `Int32Arith.Wrap` to that sum.
  `Cars.OverflowWrapsNegative` shows the effect: a move that carries the
  position past `int.MaxValue` leaves it negative. The finish message then
  stops until the position climbs back to 100.
- **Bounded rounds instead of `while (true)`.** The source loop never ends.
  `Race.StartRace` takes a number of rounds `n`, and one round is
  `Race.Round`.
- **Relays are counted per car.** A relay lives on the car's `Finish` event.
  So each car travels as a `Race.Entrant` that also holds how many relays are
  attached to it. Subscribing a car twice forwards each of its messages twice,
  which is what `+=` on an event does.

## Model

| member | source | states |
|---|---|---|
| Int32Arith.Wrap | Module12Practice/Program.cs:43 | the unchecked 32-bit result of `Position += Speed`: congruent to the true sum modulo 2^32, and equal to it when the sum fits in an `int` |
| Cars.NewCar | Module12Practice/Program.cs:34-39 | the base constructor stores model and speed, and the position starts at 0 |
| Cars.FinishMessage | Module12Practice/Program.cs:47 | the finish message is exactly the model name followed by ` финишировал!` |
| Cars.FinishMessageInjective | Module12Practice/Program.cs:47 | different model names give different finish messages, so a message identifies its car's model |
| Cars.Move | Module12Practice/Program.cs:41-49 | a move adds the speed to the position (with 32-bit wrap) and keeps model and speed; it raises exactly one message, the car's own, iff the new position is at least 100, with no once-only guard |
| Cars.MoveN | Module12Practice/Program.cs:41-48 | n moves keep model and speed, and raise at most n messages, all the car's own |
| Cars.PositionAfterMoves | Module12Practice/Program.cs:41-43 | with speed >= 0 and no overflow, n moves advance the position by exactly n * speed |
| Cars.PositionFromStart | Module12Practice/Program.cs:34-43 | for a non-negative speed and before overflow, from construction, n moves leave the car at n * speed |
| Cars.MoveNeverGoesBack | Module12Practice/Program.cs:43 | a move with non-negative speed and no overflow never decreases the position, and increases it by exactly the speed |
| Cars.OverflowWrapsNegative | Module12Practice/Program.cs:43-48 | for every car with non-negative position and speed, a move whose sum passes `int.MaxValue` leaves a negative position and raises no message |
| Cars.FirstFinishIsLeast | Module12Practice/Program.cs:43-45 | `FirstFinish(speed)` is the least n with n * speed >= 100 |
| Cars.ReachesLineIff | Module12Practice/Program.cs:43-45 | for a positive speed, n * speed >= 100 iff n >= `FirstFinish(speed)`; so from position 0 and before overflow, move n reaches the line iff n >= `FirstFinish(speed)` |
| Cars.NthMoveMessage | Module12Practice/Program.cs:43-48 | from construction and before overflow, move n raises the finish message iff n >= `FirstFinish(speed)` |
| Cars.MessagesFromStart | Module12Practice/Program.cs:38-48 | before overflow, the message trace of a new car after n moves is silent before `FirstFinish(speed)`, then repeats the message on every move, the first finishing one included |
| Cars.FirstMessageAtFirstFinish | Module12Practice/Program.cs:43-48 | the first move that raises a message is the least n with n * speed >= 100, and no earlier move raises anything |
| Cars.FirstFinishAntitone | Module12Practice/Program.cs:43-45 | a faster car never needs more moves to reach the line |
| Cars.NewCarOfKind | Module12Practice/Program.cs:57-75 | a car of each class keeps the model and the drawn speed and starts at 0; the speed lies in the class's half-open range, so in [4, 20) |
| Cars.KindRangeSound | Module12Practice/Program.cs:59-74 | each class's speed range is non-empty, positive and excludes its upper bound |
| Cars.KindCarAdvances | Module12Practice/Program.cs:57-75 | a car of any class strictly advances on every move that does not overflow |
| Cars.KindFinishBounds | Module12Practice/Program.cs:57-75 | a car of a class needs between `FirstFinish` of its fastest and of its slowest speed moves to finish |
| Race.Subscribe | Module12Practice/Program.cs:98-101 | subscribing adds one relay to the car's `Finish` event and leaves the car itself unchanged |
| Race.Relay | Module12Practice/Program.cs:100 | relaying produces one event per message per relay, each a `RaceFinish` carrying one of the messages unchanged |
| Race.RelayInOrder | Module12Practice/Program.cs:100 | relayed messages come in blocks in message order: message k is forwarded unchanged as `RaceFinish` once per relay, between the relays of the earlier and of the later messages |
| Race.MoveEntrant | Module12Practice/Program.cs:93-100 | a car's turn moves the car once and keeps its relays; it raises one event per relay if the car ends at or past 100 and none otherwise, each the car's unchanged finish message |
| Race.Round | Module12Practice/Program.cs:91-94 | one round moves every car exactly once, keeps the car count and relays, and raises only `RaceFinish` events |
| Race.PlayRound | Module12Practice/Program.cs:91-94 | the loop over the cars in argument order computes exactly the round's cars and events |
| Race.RoundForwardsExactly | Module12Practice/Program.cs:91-100 | `RaceFinish(m)` is raised in a round iff some subscribed car ends its move at or past the line and m is that car's message |
| Race.UnsubscribedRoundIsSilent | Module12Practice/Program.cs:98-100 | with no relays attached, a round raises no race event |
| Race.Rounds | Module12Practice/Program.cs:89-95 | n rounds keep the car count, each car's model and relays, and raise only `RaceFinish` events |
| Race.RoundsMoveEachCar | Module12Practice/Program.cs:89-95 | after n rounds every car has moved exactly n times and keeps its relays |
| Race.LastRoundForwardsExactly | Module12Practice/Program.cs:91-100 | round n forwards message m iff some subscribed car ends its n-th move at or past 100 and m is that car's message |
| Race.RoundsForwardExactly | Module12Practice/Program.cs:89-100 | over n rounds, message m is forwarded iff some subscribed car ends one of its first n moves at or past 100 and m is that car's message |
| Race.StartRace | Module12Practice/Program.cs:85-100 | `RaceStart` is raised first, before any move; every later event is the unchanged finish message of a subscribed car that reached the line within the n rounds, and every such car's message does follow; every car is moved n times |
| Race.SoloRoundsRelay | Module12Practice/Program.cs:89-100 | a lone car's race events are its own finish messages, each forwarded once per relay |
| Race.SoloRaceTrace | Module12Practice/Program.cs:85-100 | before overflow, a new car subscribed once and raced alone gives `RaceStart`, then its unchanged message once per move from its first finishing move on |
| PropertyChange.NewHolder | Module12Practice/Program.cs:106 | the backing field of a new object is unset (`null`) |
| PropertyChange.SetName | Module12Practice/Program.cs:111-117 | after the setter the getter returns the value; an equal value changes nothing and raises nothing; a different value raises exactly one notification carrying `"Name"` |
| PropertyChange.SetNamesCountsChanges | Module12Practice/Program.cs:111-126 | after any run of assignments the getter returns the last value, every notification carries `"Name"`, and there is one notification per assignment that changed the value |
| PropertyChange.SilentIffNoChange | Module12Practice/Program.cs:113-117 | a run of assignments raises nothing iff every assigned value equals the stored one |
| PropertyChange.SetNameIdempotent | Module12Practice/Program.cs:113-116 | repeating an assignment changes nothing and raises nothing |
| PropertyChange.SetTwiceNotifiesOnce | Module12Practice/Program.cs:113-116 | assigning the same value twice raises one notification if it was new, and none otherwise |
| PropertyChange.FirstAssignmentNotifies | Module12Practice/Program.cs:106-116 | the first assignment of a string to a new object notifies once with `"Name"` |

## Left out

- `Calculator`, `MathOperation`, `PerformOperation` and the delegate chain at line 160 are left out. They are floating-point arithmetic with `NaN` and multicast-delegate semantics, outside the event core.
- `new Random().Next(lo, hi)` is left out. It is a library random number generator. The drawn speed is a parameter constrained to `[lo, hi)`.
- The endless `while (true)` loop in `StartRace` is left out. Races run for a bounded number of rounds.
- `Console.WriteLine` output and the `Main` driver are left out.
- The observer lists behind `?.Invoke` and `+=` are not modelled. Events are recorded as raised, and the `sender` argument is dropped. The one kind of observer the core installs, the race relay, is counted per car.
- The public setters of `Model`, `Speed` and `Position` are left out. No code outside `Car` assigns them; `Move`'s own update of `Position` is modelled.
- A `null` model name is not modelled. In the source it would print as an empty name in the finish message.
- The same car passed twice to `StartRace` is not modelled. Each array slot is a separate car here.
- Which game a relay belongs to is not modelled. The relay at line 100 closes over the `RaceGame` that subscribed the car, so a car subscribed by one game and raced by another raises the first game's `RaceFinish`. Here every relay on a car is taken to belong to the game running `StartRace`.
- A `null` car or car array is not modelled. A null element of `StartRace`'s array (line 93), a null array passed to `StartRace` (which raises `RaceStart` and then throws at the `foreach`, line 91), or a null car passed to `SubscribeToEvents` (line 100) throws `NullReferenceException`. The model's cars and car sequences cannot be null.
- Cars.PositionAfterMoves: requires a non-negative speed and no overflow. Every car class draws a positive speed, and past `int.MaxValue` the position wraps, as `Cars.OverflowWrapsNegative` shows.
- Race.Relay: its contract states only the count and the messages carried. The per-message blocks and their order are stated by `Race.RelayInOrder`.
- Race.Rounds: its contract states only the car updates and the event kinds. Which messages are forwarded, in both directions, is stated by `Race.RoundsForwardExactly`.
- Race.StartRace: states which messages are forwarded, but not how many times each is or in what order across rounds. A single car's full trace is `Race.SoloRaceTrace`, and one round's order is `Race.PlayRound`.
- Race.Round: its contract states only the car updates and the event kinds. Which messages are forwarded is stated by `Race.RoundForwardsExactly`, and the loop order by `Race.PlayRound`.
