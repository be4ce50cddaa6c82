/** `util::Semaphore`: a counter of 32 bits. Sleeping and waking are modelled in Protocol.dfy;
    the class is what happens under the lock. */
module Semaphores {

  const UINT32_RANGE: nat := 0x1_0000_0000

  /** `++_value` on an unsigned 32-bit counter. */
  function Incremented(value: nat): (r: nat)
    ensures r < UINT32_RANGE
    ensures value < UINT32_RANGE - 1 ==> r == value + 1
  {
    (value + 1) % UINT32_RANGE
  }

  class Semaphore {
    var value: nat

    ghost predicate Valid()
      reads this
    {
      value < UINT32_RANGE
    }

    constructor (value: nat)
      requires value < UINT32_RANGE
      ensures Valid() && this.value == value
    {
      this.value := value;
    }

    /** The locked block of `notify`; waking a sleeper comes after it. */
    method Increment()
      requires Valid()
      modifies this
      ensures Valid() && value == Incremented(old(value))
      ensures value == if old(value) == 0xFFFF_FFFF then 0 else old(value) + 1
    {
      value := (value + 1) % UINT32_RANGE;
    }

    /** One look at the counter in `wait`: takes a token, or finds that it has to sleep. */
    method TryDecrement() returns (taken: bool)
      requires Valid()
      modifies this
      ensures Valid()
      ensures taken <==> old(value) > 0
      ensures value == if taken then old(value) - 1 else old(value)
    {
      taken := value != 0;
      if taken {
        value := value - 1;
      }
    }
  }
}
