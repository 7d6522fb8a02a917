/**
 The cars of the race: a model name, a speed drawn once at construction and
 a position that starts at 0. `Move` advances the position by the speed and,
 whenever the new position is at or past the finish line, raises the car's
 `Finish` event. There is no "already finished" flag, so every move made at
 or past the line raises it again.

 The four car classes differ only in the half-open range their speed is
 drawn from; here they are one `Car` datatype and a `Kind` whose range is a
 precondition on the speed handed to the constructor (the random draw
 itself is a parameter).
 */
module Cars {
  import opened Int32Arith

  /** Position at or past which a move raises the finish message. */
  const FinishLine: int := 100

  /** Text appended to the model name in the finish message. */
  const FinishSuffix: string := " финишировал!"

  datatype Car = Car(model: string, speed: Int32, position: Int32)

  /** A state after one or more moves, with the finish messages raised on
      the way, oldest first. */
  datatype Moved = Moved(car: Car, messages: seq<string>)

  /** The base constructor: any model and speed, position 0. */
  function NewCar(model: string, speed: Int32): (c: Car)
    ensures c.model == model && c.speed == speed
    ensures c.position == 0
  {
    Car(model, speed, 0)
  }

  /** The message the `Finish` event carries: the model name followed by
      the finish marker. */
  function FinishMessage(model: string): (m: string)
    ensures |m| == |model| + |FinishSuffix|
    ensures m[..|model|] == model
    ensures m[|model|..] == FinishSuffix
  {
    model + FinishSuffix
  }

  /** Different models give different finish messages, so a relayed message
      still names the car it came from. */
  lemma FinishMessageInjective(a: string, b: string)
    requires FinishMessage(a) == FinishMessage(b)
    ensures a == b
  {
    assert |a| == |b|;
    assert a == FinishMessage(a)[..|a|];
  }

  /** One move: the position grows by the speed (with 32-bit wrap-around),
      model and speed stay as they are, and exactly one finish message is
      raised iff the new position is at or past the finish line. */
  function Move(c: Car): (r: Moved)
    ensures r.car.model == c.model && r.car.speed == c.speed
    ensures r.car.position == Wrap(c.position + c.speed)
    ensures c.position + c.speed <= MaxValue && MinValue <= c.position + c.speed ==>
              r.car.position == c.position + c.speed
    ensures |r.messages| <= 1
    ensures |r.messages| == 1 <==> r.car.position >= FinishLine
    ensures forall m <- r.messages :: m == FinishMessage(c.model)
  {
    var moved := c.(position := Wrap(c.position + c.speed));
    if moved.position >= FinishLine then Moved(moved, [FinishMessage(c.model)])
    else Moved(moved, [])
  }

  /** `n` moves in a row, with every message raised, in order. */
  function MoveN(c: Car, n: nat): (r: Moved)
    ensures r.car.model == c.model && r.car.speed == c.speed
    ensures |r.messages| <= n
    ensures forall m <- r.messages :: m == FinishMessage(c.model)
  {
    if n == 0 then Moved(c, [])
    else
      var before := MoveN(c, n - 1);
      var last := Move(before.car);
      Moved(last.car, before.messages + last.messages)
  }

  /** With a non-negative speed and no overflow, `n` moves advance the
      position by exactly `n * speed`. */
  lemma {:induction false} PositionAfterMoves(c: Car, n: nat)
    requires c.speed >= 0
    requires c.position + n * c.speed <= MaxValue
    ensures MoveN(c, n).car.position == c.position + n * c.speed
  {
    if n > 0 {
      MultStep(c.position, c.speed, n);
      PositionAfterMoves(c, n - 1);
    }
  }

  /** One more step of `speed` from `p + (n - 1) * speed`, and the bound
      that keeps the earlier steps in range. */
  lemma MultStep(p: int, speed: int, n: nat)
    requires speed >= 0 && n > 0
    ensures p + (n - 1) * speed + speed == p + n * speed
    ensures p + (n - 1) * speed <= p + n * speed
  {
  }

  /** From construction, `n` moves leave the car at `n * speed`. */
  lemma PositionFromStart(model: string, speed: Int32, n: nat)
    requires speed >= 0
    requires n * speed <= MaxValue
    ensures MoveN(NewCar(model, speed), n).car.position == n * speed
  {
    PositionAfterMoves(NewCar(model, speed), n);
  }

  /** Non-decreasing position: a move with a non-negative speed that does
      not overflow never moves the car back. */
  lemma MoveNeverGoesBack(c: Car)
    requires c.speed >= 0
    requires c.position + c.speed <= MaxValue
    ensures Move(c).car.position >= c.position
    ensures Move(c).car.position - c.position == c.speed
  {
  }

  /** The overflow the source leaves unchecked: a move that carries the
      position past `int.MaxValue` wraps it to a negative value, so that
      move raises no finish message. */
  lemma OverflowWrapsNegative(c: Car)
    requires c.position >= 0 && c.speed >= 0
    requires c.position + c.speed > MaxValue
    ensures Move(c).car.position < 0
    ensures Move(c).messages == []
  {
    assert Wrap(c.position + c.speed) == c.position + c.speed - Modulus;
  }

  /** `count` copies of `x`. */
  function Repeat<T>(x: T, count: nat): (r: seq<T>)
    ensures |r| == count
    ensures forall y <- r :: y == x
  {
    if count == 0 then [] else Repeat(x, count - 1) + [x]
  }

  /** The number of the first move that reaches the finish line from
      position 0: the least `n` with `n * speed >= FinishLine`. */
  function FirstFinish(speed: int): (n: nat)
    requires speed > 0
  {
    (FinishLine + speed - 1) / speed
  }

  /** `FirstFinish` is the least number of moves that reaches the line. */
  lemma FirstFinishIsLeast(speed: int)
    requires speed > 0
    ensures FirstFinish(speed) >= 1
    ensures FirstFinish(speed) * speed >= FinishLine
    ensures (FirstFinish(speed) - 1) * speed < FinishLine
    ensures FirstFinish(speed) * speed <= FinishLine + speed - 1
  {
    var q := FirstFinish(speed);
    var r := (FinishLine + speed - 1) % speed;
    assert FinishLine + speed - 1 == q * speed + r;
    assert 0 <= r < speed;
    assert (q - 1) * speed == q * speed - speed;
  }

  /** From position 0, a move numbered `n` reaches the line iff it is not
      earlier than the first finishing move. */
  lemma ReachesLineIff(speed: int, n: nat)
    requires speed > 0
    ensures n * speed >= FinishLine <==> n >= FirstFinish(speed)
  {
    var f := FirstFinish(speed);
    FirstFinishIsLeast(speed);
    if n >= f {
      assert n * speed - f * speed == (n - f) * speed;
      assert (n - f) * speed >= 0;
    } else {
      assert (f - 1) * speed - n * speed == (f - 1 - n) * speed;
      assert (f - 1 - n) * speed >= 0;
    }
  }

  /** How many finish messages `n` moves from position 0 raise: none before
      the first finishing move, then one on every move, that one included. */
  function FinishCount(speed: int, n: nat): nat
    requires speed > 0
  {
    if n < FirstFinish(speed) then 0 else n - FirstFinish(speed) + 1
  }

  /** Move number `n` of a freshly built car raises the finish message iff
      it is not earlier than the first finishing move. */
  lemma NthMoveMessage(model: string, speed: Int32, n: nat)
    requires speed > 0 && n > 0
    requires n * speed <= MaxValue
    ensures Move(MoveN(NewCar(model, speed), n - 1).car).messages
              == if n >= FirstFinish(speed) then [FinishMessage(model)] else []
  {
    assert (n - 1) * speed + speed == n * speed;
    PositionFromStart(model, speed, n - 1);
    ReachesLineIff(speed, n);
  }

  /** The whole message trace of a freshly built car: silent until the
      first finishing move, then the same message on every move (there is
      no once-only guard). */
  lemma {:induction false} MessagesFromStart(model: string, speed: Int32, n: nat)
    requires speed > 0
    requires n * speed <= MaxValue
    ensures MoveN(NewCar(model, speed), n).messages
              == Repeat(FinishMessage(model), FinishCount(speed, n))
  {
    if n > 0 {
      assert (n - 1) * speed <= n * speed;
      MessagesFromStart(model, speed, n - 1);
      NthMoveMessage(model, speed, n);
    }
  }

  /** The first move that raises the finish message is move number
      `FirstFinish(speed)`, the least `n` with `n * speed >= 100`; every
      earlier move is silent. */
  lemma FirstMessageAtFirstFinish(model: string, speed: Int32)
    requires speed > 0
    ensures FirstFinish(speed) * speed >= FinishLine
    ensures (FirstFinish(speed) - 1) * speed < FinishLine
    ensures MoveN(NewCar(model, speed), FirstFinish(speed) - 1).messages == []
    ensures MoveN(NewCar(model, speed), FirstFinish(speed)).messages == [FinishMessage(model)]
  {
    var f := FirstFinish(speed);
    FirstFinishIsLeast(speed);
    assert f * speed <= MaxValue;
    assert (f - 1) * speed <= f * speed;
    MessagesFromStart(model, speed, f - 1);
    MessagesFromStart(model, speed, f);
    assert Repeat(FinishMessage(model), 1) == [FinishMessage(model)];
  }

  /** A faster car never needs more moves to finish. */
  lemma FirstFinishAntitone(slow: int, fast: int)
    requires 0 < slow <= fast
    ensures FirstFinish(fast) <= FirstFinish(slow)
  {
    FirstFinishIsLeast(slow);
    var f := FirstFinish(slow);
    assert f * fast - f * slow == f * (fast - slow);
    assert f * fast >= FinishLine;
    ReachesLineIff(fast, f);
  }

  /** The four car classes of the source. */
  datatype Kind = SportsCar | PassengerCar | Truck | Bus

  /** Lowest speed a kind's constructor can draw (inclusive). */
  function MinSpeed(k: Kind): int {
    match k
    case SportsCar => 10
    case PassengerCar => 8
    case Truck => 5
    case Bus => 4
  }

  /** Bound of a kind's speed range (exclusive, like `Random.Next`). */
  function SpeedBound(k: Kind): int {
    match k
    case SportsCar => 20
    case PassengerCar => 15
    case Truck => 12
    case Bus => 10
  }

  predicate Drawable(k: Kind, speed: int) {
    MinSpeed(k) <= speed < SpeedBound(k)
  }

  /** A car of kind `k`, given the speed its random draw returned. */
  function NewCarOfKind(k: Kind, model: string, speed: Int32): (c: Car)
    requires Drawable(k, speed)
    ensures c.model == model && c.speed == speed && c.position == 0
    ensures 4 <= c.speed < 20
    ensures MinSpeed(k) <= c.speed < SpeedBound(k)
  {
    NewCar(model, speed)
  }

  /** Every kind's range is non-empty and lies in the positive numbers, so
      every car the program builds has a positive speed. */
  lemma KindRangeSound(k: Kind)
    ensures 0 < MinSpeed(k) < SpeedBound(k)
    ensures Drawable(k, MinSpeed(k)) && !Drawable(k, SpeedBound(k))
  {
  }

  /** A car of any kind strictly advances on every move that does not
      overflow. */
  lemma KindCarAdvances(k: Kind, c: Car)
    requires Drawable(k, c.speed)
    requires c.position + c.speed <= MaxValue
    ensures Move(c).car.position > c.position
  {
    MoveNeverGoesBack(c);
  }

  /** How many moves a car of kind `k` takes to finish, bounded by its
      fastest and slowest possible speed. */
  lemma KindFinishBounds(k: Kind, speed: int)
    requires Drawable(k, speed)
    ensures FirstFinish(SpeedBound(k) - 1) <= FirstFinish(speed) <= FirstFinish(MinSpeed(k))
  {
    FirstFinishAntitone(MinSpeed(k), speed);
    FirstFinishAntitone(speed, SpeedBound(k) - 1);
  }
}
