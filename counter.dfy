// A named counter of the mapping language (RDFer/Counter.cs): a 32-bit value
// that IterateCounter moves one step up or down, wrapping like C#'s
// unchecked ++ and --.

module Counters {
  import opened DotNet

  /** The direction a counter moves in (eCounterIteration). */
  datatype Iteration = Increment | Decrement

  /** One IterateCounter step on a 32-bit value. */
  function Step(value: int, iteration: Iteration): (r: int)
    requires InInt32(value)
    ensures InInt32(r)
    ensures iteration == Increment && value < INT32_MAX ==> r == value + 1
    ensures iteration == Increment && value == INT32_MAX ==> r == INT32_MIN
    ensures iteration == Decrement && value > INT32_MIN ==> r == value - 1
    ensures iteration == Decrement && value == INT32_MIN ==> r == INT32_MAX
  {
    if iteration == Increment then Wrap32(value + 1) else Wrap32(value - 1)
  }

  /** The value after n steps. */
  function Stepped(value: int, iteration: Iteration, n: nat): (r: int)
    requires InInt32(value)
    ensures InInt32(r)
  {
    if n == 0 then value else Step(Stepped(value, iteration, n - 1), iteration)
  }

  /** n steps move the value by n modulo 2^32: a counter counts, and wraps
      only at the ends of the 32-bit range. */
  lemma {:induction false} SteppedIsWrappedSum(value: int, iteration: Iteration, n: nat)
    requires InInt32(value)
    ensures Stepped(value, iteration, n)
         == Wrap32(if iteration == Increment then value + n else value - n)
  {
    if n > 0 {
      SteppedIsWrappedSum(value, iteration, n - 1);
      var p := Stepped(value, iteration, n - 1);
      var x := if iteration == Increment then value + (n - 1) else value - (n - 1);
      var y := if iteration == Increment then value + n else value - n;
      assert p == Wrap32(x);
      assert (x - p) % 0x1_0000_0000 == 0;
      var q := if iteration == Increment then p + 1 else p - 1;
      assert (y - q) % 0x1_0000_0000 == 0;
      WrapCongruent(y, q);
    }
  }

  lemma WrapCongruent(x: int, y: int)
    requires (x - y) % 0x1_0000_0000 == 0
    ensures Wrap32(x) == Wrap32(y)
  {
    var k := (x - y) / 0x1_0000_0000;
    assert x - INT32_MIN == (y - INT32_MIN) + k * 0x1_0000_0000;
  }

  /** An increment undone by a decrement restores the value, also at the wrap. */
  lemma StepUndone(value: int)
    requires InInt32(value)
    ensures Step(Step(value, Increment), Decrement) == value
    ensures Step(Step(value, Decrement), Increment) == value
  {
  }

  class Counter {
    var initialValue: int
    var counterValue: int
    var iteration: Iteration
    var counterName: string

    ghost predicate Valid()
      reads this
    {
      InInt32(initialValue) && InInt32(counterValue)
    }

    /** Counter(name): starts at zero and increments. */
    constructor(name: string)
      ensures Valid()
      ensures counterName == name && initialValue == 0 && counterValue == 0
      ensures iteration == Increment
    {
      counterName := name;
      initialValue := 0;
      counterValue := 0;
      iteration := Increment;
    }

    /** Counter(name, initialValue, iteration). */
    constructor WithInitialValue(name: string, initial: int, direction: Iteration)
      requires InInt32(initial)
      ensures Valid()
      ensures counterName == name && initialValue == initial && counterValue == initial
      ensures iteration == direction
    {
      counterName := name;
      initialValue := initial;
      counterValue := initial;
      iteration := direction;
    }

    method IterateCounter()
      requires Valid()
      modifies this`counterValue
      ensures Valid()
      ensures counterValue == Step(old(counterValue), iteration)
    {
      match iteration
      case Increment =>
        counterValue := Wrap32(counterValue + 1);
      case Decrement =>
        counterValue := Wrap32(counterValue - 1);
    }
  }

  /** A fresh counter iterated three times reads 1, 2 and 3. */
  method FreshCounterCountsUp(name: string) returns (first: int, second: int, third: int)
    ensures first == 1 && second == 2 && third == 3
  {
    var c := new Counter(name);
    c.IterateCounter();
    first := c.counterValue;
    c.IterateCounter();
    second := c.counterValue;
    c.IterateCounter();
    third := c.counterValue;
  }
}
