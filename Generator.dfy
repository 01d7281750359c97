/** The generator behind fresh ObjectIds: a fixed 5-byte process id and a
    24-bit counter that steps once per id. */
module ObjectIdInternal {
  import opened Bytes

  const COUNTER_MAX := 0xFF_FFFF
  const PID_LENGTH := 5

  /** The number of distinct counter values. */
  const COUNTER_RANGE := COUNTER_MAX + 1

  /** The counter value after one id: `$this->counter + 1 & COUNTER_MAX`.
      Masking a non-negative integer with 2^24 - 1 keeps its remainder
      modulo 2^24, which is how the mask is written here. */
  function Step(counter: int): (r: int)
    requires 0 <= counter <= COUNTER_MAX
    ensures 0 <= r <= COUNTER_MAX
    ensures r == 0 <==> counter == COUNTER_MAX
  {
    (counter + 1) % COUNTER_RANGE
  }

  /** The counter value after `k` ids. */
  function StepN(counter: int, k: nat): (r: int)
    requires 0 <= counter <= COUNTER_MAX
    ensures 0 <= r <= COUNTER_MAX
  {
    if k == 0 then counter else Step(StepN(counter, k - 1))
  }

  /** The 12-byte layout `time (4) | processId (5) | counter (3)`: the low 32
      bits of `time` big-endian, the process id as it is, and the low 24 bits
      of `counter` big-endian (the last three bytes of `pack('N', counter)`). */
  function Generate(time: int, processId: seq<Byte>, counter: int): (r: seq<Byte>)
    ensures |r| == 4 + |processId| + 3
    ensures r[..4] == PackN(time) && Unpack(r[..4]) == time % 0x1_0000_0000
    ensures r[4..4 + |processId|] == processId
    ensures r[4 + |processId|..] == Pack(counter, 3) && Unpack(r[4 + |processId|..]) == counter % COUNTER_RANGE
    ensures 0 <= counter <= COUNTER_MAX ==> Unpack(r[4 + |processId|..]) == counter
  {
    SmallMod(counter, COUNTER_RANGE);
    PackDropTop(counter, 3);
    UnpackPack(time, 4);
    UnpackPack(counter, 3);
    Pow256Widths();
    var r := PackN(time) + processId + PackN(counter)[1..];
    assert r[..4] == PackN(time);
    assert r[4 + |processId|..] == Pack(counter, 3);
    r
  }

  class Generator {
    /** The random discriminator of this process. */
    var processId: seq<Byte>
    /** The last counter value handed out. */
    var counter: int

    ghost predicate Valid()
      reads this
    {
      |processId| == PID_LENGTH && 0 <= counter <= COUNTER_MAX
    }

    /** `randomPid` and `randomCounter` stand for the draws of `random_bytes`
        and `random_int` the source makes here. */
    constructor (randomPid: seq<Byte>, randomCounter: int)
      requires |randomPid| == PID_LENGTH && 0 <= randomCounter <= COUNTER_MAX
      ensures Valid()
      ensures processId == randomPid && counter == randomCounter
    {
      processId := randomPid;
      counter := randomCounter;
    }

    /** Steps the counter and lays out an id for `time` with the new value;
        the caller supplies the clock reading when the source would call
        `time()`. */
    method NextObjectId(time: int) returns (data: seq<Byte>)
      requires Valid()
      modifies this
      ensures Valid()
      ensures processId == old(processId)
      ensures counter == Step(old(counter)) == (old(counter) + 1) % COUNTER_RANGE
      ensures data == Generate(time, processId, counter)
      ensures |data| == 12
      ensures Unpack(data[..4]) == time % 0x1_0000_0000 && data[4..9] == processId
      ensures Unpack(data[9..]) == counter
    {
      counter := Step(counter);
      data := Generate(time, processId, counter);
    }
  }

  /** `k` steps add `k` to the counter, modulo 2^24. */
  lemma {:induction false} StepNIsAddition(counter: int, k: nat)
    requires 0 <= counter <= COUNTER_MAX
    ensures StepN(counter, k) == (counter + k) % COUNTER_RANGE
  {
    if k > 0 {
      StepNIsAddition(counter, k - 1);
      ModSucc(counter + k - 1, COUNTER_RANGE);
    }
  }

  /** Adding one commutes with taking the remainder. */
  lemma ModSucc(x: int, m: int)
    requires m > 0
    ensures (x % m + 1) % m == (x + 1) % m
  {
    var q, r := x / m, x % m;
    if r + 1 < m {
      DivModUnique(x + 1, m, q, r + 1);
      DivModUnique(r + 1, m, 0, r + 1);
    } else {
      DivModUnique(x + 1, m, q + 1, 0);
      DivModUnique(r + 1, m, 1, 0);
    }
  }

  /** Up to 2^24 consecutive steps never repeat a counter value. */
  lemma StepNDistinct(counter: int, i: nat, j: nat)
    requires 0 <= counter <= COUNTER_MAX
    requires i < j && j - i < COUNTER_RANGE
    ensures StepN(counter, i) != StepN(counter, j)
  {
    StepNIsAddition(counter, i);
    StepNIsAddition(counter, j);
    ModDistinct(counter + i, j - i, COUNTER_RANGE);
  }

  /** Numbers less than `m` apart have different remainders modulo `m`. */
  lemma ModDistinct(x: int, d: int, m: int)
    requires 0 < d < m
    ensures x % m != (x + d) % m
  {
    var a, b := x / m, (x + d) / m;
    if x % m == (x + d) % m {
      assert d == m * (b - a);
      if b - a >= 1 {
        MulAtLeast(m, b - a);
      } else {
        MulAtLeast(m, a - b + 1);
      }
    }
  }

  /** Ids laid out for one time and one process id differ whenever their
      counters differ. */
  lemma GenerateCounterInjective(time: int, processId: seq<Byte>, c: int, d: int)
    requires 0 <= c <= COUNTER_MAX && 0 <= d <= COUNTER_MAX && c != d
    ensures Generate(time, processId, c) != Generate(time, processId, d)
  {
    var p := 4 + |processId|;
    assert Unpack(Generate(time, processId, c)[p..]) != Unpack(Generate(time, processId, d)[p..]);
  }

  /** The ids of the calls numbered `i` and `j` (counting from 1) in a run of
      `n <= 2^24` consecutive calls with the same time are distinct. */
  lemma ConsecutiveIdsDistinct(time: int, processId: seq<Byte>, counter: int, n: nat, i: nat, j: nat)
    requires 0 <= counter <= COUNTER_MAX
    requires 1 <= i < j <= n <= COUNTER_RANGE
    ensures Generate(time, processId, StepN(counter, i)) != Generate(time, processId, StepN(counter, j))
  {
    StepNDistinct(counter, i, j);
    GenerateCounterInjective(time, processId, StepN(counter, i), StepN(counter, j));
  }

  /** Two calls in a row with the same time give different ids. */
  method TwoCallsDiffer(g: Generator, time: int) returns (first: seq<Byte>, second: seq<Byte>)
    requires g.Valid()
    modifies g
    ensures g.Valid() && g.processId == old(g.processId)
    ensures g.counter == StepN(old(g.counter), 2)
    ensures first == Generate(time, g.processId, StepN(old(g.counter), 1))
    ensures second == Generate(time, g.processId, g.counter)
    ensures first != second
  {
    ghost var c0 := g.counter;
    first := g.NextObjectId(time);
    ghost var c1 := g.counter;
    assert c1 == StepN(c0, 1);
    second := g.NextObjectId(time);
    assert g.counter == Step(c1) == StepN(c0, 2);
    ConsecutiveIdsDistinct(time, g.processId, c0, 2, 1, 2);
  }
}
