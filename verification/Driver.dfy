/** The timer-driven device: a triangle wave, stamped with the time and queued in a
    queue of bounded length. */
module Driver {
  import opened Integers
  import opened RecordCodec

  const SEC: Word := 1
  const USEC: Word := 2
  const XA0: Word := 3
  const FIFO_SIZE := 32

  type Dir = d: int | d == 1 || d == -1 witness 1

  /** The last recorded time, the sample, its direction and the queue. */
  datatype Device = Device(sec: Word, usec: Word, value: Word, dir: Dir, fifo: seq<Update>)

  const START := Device(0, 0, 0, 1, [])

  /** A put on a full queue discards the item. */
  function Enqueue(fifo: seq<Update>, u: Update): seq<Update> {
    if |fifo| < FIFO_SIZE then fifo + [u] else fifo
  }

  /** The unsigned 32-bit sum, which wraps. */
  function AddWrapping(value: Word, dir: Dir): Word {
    (value + (if dir == 1 then 1 else 0xFFFF_FFFF)) % 0x1_0000_0000
  }

  function Turn(value: Word, dir: Dir): Dir {
    if value == 0 then 1 else if value > 359 then -1 else dir
  }

  /** The next sample. */
  function Moved(d: Device): Device {
    var value := AddWrapping(d.value, d.dir);
    d.(value := value, dir := Turn(value, d.dir))
  }

  function PutTriple(fifo: seq<Update>, sec: Word, usec: Word, value: Word): seq<Update> {
    Enqueue(Enqueue(Enqueue(fifo, Update(SEC, sec)), Update(USEC, usec)), Update(XA0, value))
  }

  function Tick(d: Device, sec: Word, usec: Word): Device {
    var m := Moved(d);
    Device(sec, usec, m.value, m.dir, PutTriple(d.fifo, sec, usec, m.value))
  }

  /** How many whole records fit in `count` bytes. */
  function Whole(count: nat): nat { if count < 8 then 0 else 1 + Whole(count - 8) }

  lemma {:induction false} WholeIs(count: nat)
    ensures Whole(count) == count / 8
  {
    if count < 8 {
    } else {
      WholeIs(count - 8);
    }
  }

  /** How many of at most `n` records a read takes. */
  function Taken(d: Device, n: nat): nat { MinNat(n, |d.fifo|) }

  function Take(d: Device, n: nat): Device { d.(fifo := d.fifo[Taken(d, n)..]) }

  /** What a read comes to at once. */
  datatype ReadOutcome = Again | Waiting | Copied(data: Bytes)

  class LophiloDevice {
    /** One record per source, indexed by the source's number. */
    const updates: array<Update>
    var dir: Dir
    var fifo: seq<Update>

    predicate Valid()
      reads this, updates
    {
      && updates.Length == 4
      && updates[1].source == SEC
      && updates[2].source == USEC
      && updates[3].source == XA0
    }

    function Model(): Device
      requires Valid()
      reads this, updates
    {
      Device(updates[1].value, updates[2].value, updates[3].value, dir, fifo)
    }

    constructor ()
      ensures Valid() && Model() == START && fresh(updates)
    {
      var page := new Update[4](_ => Update(0, 0));
      page[1] := Update(SEC, 0);
      page[2] := Update(USEC, 0);
      page[3] := Update(XA0, 0);
      updates := page;
      dir := 1;
      fifo := [];
    }

    /** The timer fires at the time given. */
    method OnTimer(sec: Word, usec: Word)
      requires Valid()
      modifies this, updates
      ensures Valid() && Model() == Tick(old(Model()), sec, usec)
    {
      Advance();
      updates[1] := updates[1].(value := sec);
      updates[2] := updates[2].(value := usec);
      KfifoPut(updates[1]);
      KfifoPut(updates[2]);
      KfifoPut(updates[3]);
    }

    method Advance()
      requires Valid()
      modifies this`dir, updates
      ensures Valid() && Model() == Moved(old(Model()))
    {
      updates[3] := updates[3].(value := AddWrapping(updates[3].value, dir));
      if updates[3].value > 359 {
        dir := -1;
      }
      if updates[3].value == 0 {
        dir := 1;
      }
    }

    method KfifoPut(u: Update)
      modifies this`fifo
      ensures fifo == Enqueue(old(fifo), u)
    {
      if |fifo| < FIFO_SIZE {
        fifo := fifo + [u];
      }
    }

    /** A read of up to `count` bytes. With nothing queued it is to be tried again, or
        waits for the timer and then goes on in `Copy`. */
    method Read(count: nat, nonblocking: bool) returns (r: ReadOutcome, ghost taken: seq<Update>)
      requires Valid()
      modifies this`fifo
      ensures Valid()
      ensures taken == old(fifo)[..Taken(old(Model()), Whole(count))]
      ensures r == if old(fifo) != [] then Copied(EncodeAll(taken)) else if nonblocking then Again else Waiting
      ensures !r.Copied? ==> taken == []
      ensures Model() == Take(old(Model()), Whole(count))
    {
      taken := fifo[..Taken(Model(), Whole(count))];
      if fifo == [] {
        return if nonblocking then Again else Waiting, taken;
      }
      var data := Copy(count);
      return Copied(data), taken;
    }

    /** As many whole records as fit in `count` bytes. A wait that was interrupted finds
        nothing and copies nothing. */
    method Copy(count: nat) returns (data: Bytes)
      requires Valid()
      modifies this`fifo
      ensures Valid()
      ensures data == EncodeAll(old(fifo)[..Taken(old(Model()), Whole(count))])
      ensures Model() == Take(old(Model()), Whole(count))
    {
      WholeIs(count);
      var n := MinNat(count / 8, |fifo|);
      data := EncodeAll(fifo[..n]);
      fifo := fifo[n..];
    }
  }

  // --------------------------------------------------------------------- the wave

  function Wave(n: nat): int { 360 - AbsInt(360 - n % 720) }

  /** The slope of the wave's next step. */
  function Slope(n: nat): int { Wave(n + 1) - Wave(n) }

  ghost predicate OnWave(d: Device, n: nat) {
    d.value == Wave(n) && d.dir == Slope(n)
  }

  lemma Phase(n: int, q: int, p: int)
    requires n == 720 * q + p && 0 <= p < 720
    ensures n % 720 == p && n / 720 == q
  {
  }

  lemma NextPhase(n: nat)
    ensures (n + 1) % 720 == (if n % 720 == 719 then 0 else n % 720 + 1)
  {
    if n % 720 == 719 {
      Phase(n + 1, n / 720 + 1, 0);
    } else {
      Phase(n + 1, n / 720, n % 720 + 1);
    }
  }

  lemma WaveSteps(n: nat)
    ensures 0 <= Wave(n) <= 360
    ensures Slope(n) == (if n % 720 < 360 then 1 else -1)
    ensures Wave(n) == 0 <==> n % 720 == 0
    ensures Wave(n) == 360 <==> n % 720 == 360
  {
    NextPhase(n);
  }

  lemma WaveNext(n: nat)
    ensures 0 <= Wave(n + 1) <= 360
    ensures Slope(n + 1) == (if Wave(n + 1) == 0 then 1 else if Wave(n + 1) > 359 then -1 else Slope(n))
  {
    WaveSteps(n);
    WaveSteps(n + 1);
    NextPhase(n);
  }

  /** The sum with the direction does not wrap away from the ends of the range. */
  lemma NoWrap(value: Word, dir: Dir)
    requires value <= 360 && (dir == -1 ==> value != 0)
    ensures AddWrapping(value, dir) == value + dir
  {
  }

  /** Each tick moves the sample along the wave, and the addition does not wrap. */
  lemma TickOnWave(d: Device, n: nat, sec: Word, usec: Word)
    requires OnWave(d, n)
    ensures OnWave(Tick(d, sec, usec), n + 1)
    ensures AddWrapping(d.value, d.dir) == d.value + d.dir
  {
    WaveSteps(n);
    WaveNext(n);
    NoWrap(d.value, d.dir);
  }

  // --------------------------------------------------------------------- the queue

  function Triple(sec: Word, usec: Word, value: Word): (t: seq<Update>)
    ensures |t| == 3
  {
    [Update(SEC, sec), Update(USEC, usec), Update(XA0, value)]
  }

  /** How much of its triple a tick gets into the queue. */
  function Accepted(d: Device): nat {
    if |d.fifo| >= FIFO_SIZE then 0 else MinNat(3, FIFO_SIZE - |d.fifo|)
  }

  /** A tick queues a prefix of its triple, as long as there is room for. */
  lemma TickQueuesPrefix(d: Device, sec: Word, usec: Word)
    requires |d.fifo| <= FIFO_SIZE
    ensures var e := Tick(d, sec, usec);
      && |e.fifo| <= FIFO_SIZE
      && e.fifo == d.fifo + Triple(sec, usec, e.value)[..Accepted(d)]
  {
  }

  /** With room for it, the triple is the seconds, the microseconds and the sample. */
  lemma TickPuts(d: Device, sec: Word, usec: Word)
    requires |d.fifo| <= 29
    ensures var e := Tick(d, sec, usec);
      e.fifo == d.fifo + [Update(1, sec), Update(2, usec), Update(3, e.value)]
  {
  }
}
