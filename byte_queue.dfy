/** The byte-buffer `Queue` of src/queue.cpp: `_qs` items of `_is` bytes
    each in one `malloc`ed buffer, with 8-bit byte offsets `_front` and
    `_back` and an 8-bit `_count`. It takes no lock; it only polls and
    yields while it waits. */
module ByteQueue {
  import opened Machine
  import opened Ring

  /** A completed operation of another task on the same queue during a
      yield. An operation the other task could not complete (a full or
      empty queue, or an item of the wrong size) does nothing. */
  datatype QOp = Enq(item: seq<uint8>) | Deq

  /** The clock readings and the other tasks' operations a waiting loop
      observes: each `millis()` consumes a reading, each `OS.yield()` a
      run of operations. */
  datatype QEnv = QEnv(clock: seq<uint32>, runs: seq<seq<QOp>>)
  {
    function Tick(): QEnv requires |clock| > 0 { QEnv(clock[1..], runs) }
    function Step(): QEnv requires |runs| > 0 { QEnv(clock, runs[1..]) }
  }

  /** The fields of the queue: the buffer, the byte offsets, the count,
      `_qs` and `_is`. */
  datatype Buffer = Buffer(bytes: seq<uint8>, front: uint8, back: uint8, count: uint8, qs: uint8, isz: uint8)
  {
    predicate IsEmpty() { count == 0 }
    predicate IsFull() { count == qs }

    /** The count lies in `[0, _qs]` and both offsets are below `_qs`, the
        buffer holding at least `_qs * _is` bytes. With `_qs == 0` the
        queue is both empty and full and nothing ever moves. */
    predicate Valid()
    {
      count <= qs &&
      (qs == 0 ==> front == 0 && back == 0) &&
      (qs > 0 ==> front < qs && back < qs && qs as nat * isz as nat <= |bytes|)
    }
  }

  /** `getNext`: add the item size and reduce modulo `_qs` -- the number of
      items, not the number of bytes. */
  function GetNext(x: uint8, isz: uint8, qs: uint8): (r: uint8)
    requires qs > 0
    ensures r < qs
  {
    ((x as nat + isz as nat) % qs as nat) as uint8
  }

  lemma MulAtLeast(c: nat, b: nat)
    requires b >= 1
    ensures c * b >= c
  {
    assert c * b == c * (b - 1) + c;
  }

  /** A smaller first factor gives a smaller product. */
  lemma MulMono(a: nat, a': nat, b: nat)
    requires a <= a'
    ensures a * b <= a' * b
  {
    assert a' * b == a * b + (a' - a) * b;
  }

  /** An item copied at any offset below `_qs` fits in the buffer. */
  lemma CopyInBounds(q: Buffer, at: uint8)
    requires q.Valid() && at < q.qs && q.isz > 0
    ensures at as nat + q.isz as nat <= |q.bytes|
  {
    var c: nat, b: nat := q.qs as nat - 1, q.isz as nat;
    MulAtLeast(c, b);
    assert (c + 1) * b == c * b + b;
    assert q.qs as nat * q.isz as nat == (c + 1) * b;
    assert at as nat + b <= c + b <= (c + 1) * b;
  }

  /** `memcpy(_data+_front, data, _is); getNext(_front); _count++;` --
      a copy of no bytes when `_is == 0`. */
  function Put(q: Buffer, item: seq<uint8>): (r: Buffer)
    requires q.Valid() && !q.IsFull() && |item| == q.isz as nat
    ensures r.Valid() && r.count == q.count + 1 && r.back == q.back
    ensures |r.bytes| == |q.bytes| && r.qs == q.qs && r.isz == q.isz
  {
    var f := q.front as nat;
    var bytes := if q.isz == 0 then q.bytes else
      (CopyInBounds(q, q.front);
       q.bytes[..f] + item + q.bytes[f + |item|..]);
    q.(bytes := bytes, front := GetNext(q.front, q.isz, q.qs), count := q.count + 1)
  }

  /** `memcpy(data, _data+_back, _is)`: the bytes a dequeue hands out. */
  function Head(q: Buffer): (r: seq<uint8>)
    requires q.Valid() && !q.IsEmpty()
    ensures |r| == q.isz as nat
  {
    if q.isz == 0 then [] else
      CopyInBounds(q, q.back);
      q.bytes[q.back .. q.back as nat + q.isz as nat]
  }

  /** `getNext(_back); _count--;` */
  function Taken(q: Buffer): (r: Buffer)
    requires q.Valid() && !q.IsEmpty()
    ensures r.Valid() && r.count == q.count - 1 && r.bytes == q.bytes && r.front == q.front
  {
    q.(back := GetNext(q.back, q.isz, q.qs), count := q.count - 1)
  }

  /** One operation of another task. */
  function Apply(q: Buffer, op: QOp): (r: Buffer)
    requires q.Valid()
    ensures r.Valid() && |r.bytes| == |q.bytes| && r.qs == q.qs && r.isz == q.isz
  {
    match op
    case Enq(item) => if !q.IsFull() && |item| == q.isz as nat then Put(q, item) else q
    case Deq => if !q.IsEmpty() then Taken(q) else q
  }

  /** The queue after other tasks performed `ops` one after the other. */
  function Run(q: Buffer, ops: seq<QOp>): (r: Buffer)
    requires q.Valid()
    ensures r.Valid() && |r.bytes| == |q.bytes| && r.qs == q.qs && r.isz == q.isz
    decreases |ops|
  {
    if ops == [] then q else Run(Apply(q, ops[0]), ops[1..])
  }

  /** What the waiting loop waits for: room to enqueue, or an item to
      dequeue. */
  predicate Ready(q: Buffer, putting: bool)
  {
    if putting then !q.IsFull() else !q.IsEmpty()
  }

  datatype Done = Done(q: Buffer, outcome: Call<bool>, item: seq<uint8>, rest: QEnv)

  /** `while (isFull()) { if (millis() > time) return false; OS.yield(); }`
      and its `isEmpty()` twin. */
  function Await(q: Buffer, putting: bool, time: uint32, env: QEnv): (d: Done)
    requires q.Valid()
    ensures d.q.Valid() && d.item == [] && (d.outcome == Returned(true) ==> Ready(d.q, putting))
    ensures |d.q.bytes| == |q.bytes| && d.q.qs == q.qs && d.q.isz == q.isz
    decreases |env.clock|
  {
    if Ready(q, putting) then Done(q, Returned(true), [], env)
    else if env.clock == [] then Done(q, Pending, [], env)
    else if env.clock[0] > time then Done(q, Returned(false), [], env.Tick())
    else if env.runs == [] then Done(q, Pending, [], env.Tick())
    else Await(Run(q, env.runs[0]), putting, time, env.Tick().Step())
  }

  /** The effect of `enqueue(data, timeout)`: `time` is the 32-bit sum of
      the first reading and the 16-bit timeout. */
  function EnqueueFor(q: Buffer, item: seq<uint8>, timeout: uint16, env: QEnv): Done
    requires q.Valid() && |item| == q.isz as nat
  {
    if env.clock == [] then Done(q, Pending, [], env)
    else
      var w := Await(q, true, Add32(env.clock[0], timeout), env.Tick());
      if w.outcome == Returned(true) then w.(q := Put(w.q, item)) else w
  }

  /** The effect of `dequeue(data, timeout)`; `item` is what is copied to
      the caller's buffer, empty when nothing is copied. */
  function DequeueFor(q: Buffer, timeout: uint16, env: QEnv): Done
    requires q.Valid()
  {
    if env.clock == [] then Done(q, Pending, [], env)
    else
      var w := Await(q, false, Add32(env.clock[0], timeout), env.Tick());
      if w.outcome == Returned(true) then w.(q := Taken(w.q), item := Head(w.q)) else w
  }

  /** The wait ends with true exactly on a ready queue and with false only
      right after a reading strictly beyond `time`, still not ready. */
  lemma {:induction false} AwaitFacts(q: Buffer, putting: bool, time: uint32, env: QEnv)
    requires q.Valid()
    ensures var d := Await(q, putting, time, env);
      var used := |env.clock| - |d.rest.clock|;
      0 <= used <= |env.clock| && d.rest.clock == env.clock[used..] &&
      (d.outcome == Returned(true) <==> Ready(d.q, putting)) &&
      (d.outcome == Returned(false) ==> 1 <= used && env.clock[used - 1] > time)
    decreases |env.clock|
  {
    if !Ready(q, putting) && env.clock != [] && !(env.clock[0] > time) && env.runs != [] {
      var e := env.Tick().Step();
      AwaitFacts(Run(q, env.runs[0]), putting, time, e);
      var d := Await(Run(q, env.runs[0]), putting, time, e);
      var used := |e.clock| - |d.rest.clock|;
      assert env.clock[1..][used..] == env.clock[used + 1..];
      if d.outcome == Returned(false) {
        assert env.clock[used] == e.clock[used - 1];
      }
    }
  }

  /** `enqueue` returns true only having stored the item in a queue with
      room (with no other task active: this item into this queue), and
      false only when the queue is still full after a reading strictly
      beyond `millis() + timeout`. */
  lemma EnqueueForFacts(q: Buffer, item: seq<uint8>, timeout: uint16, env: QEnv)
    requires q.Valid() && |item| == q.isz as nat
    ensures var d := EnqueueFor(q, item, timeout, env);
      var used := |env.clock| - |d.rest.clock|;
      d.q.Valid() && 0 <= used <= |env.clock| &&
      (d.outcome == Returned(true) ==> d.q.count >= 1) &&
      (Alone(env) && d.outcome == Returned(true) ==> !q.IsFull() && d.q == Put(q, item)) &&
      (d.outcome == Returned(false) ==>
         d.q.IsFull() && 2 <= used && env.clock[used - 1] > Add32(env.clock[0], timeout))
  {
    if env.clock != [] {
      var t := Add32(env.clock[0], timeout);
      var e := env.Tick();
      AwaitFacts(q, true, t, e);
      if Alone(env) {
        assert Alone(e);
        AwaitAlone(q, true, t, e);
      }
      var w := Await(q, true, t, e);
      var used := |e.clock| - |w.rest.clock|;
      if w.outcome == Returned(false) {
        assert env.clock[used] == e.clock[used - 1];
      }
    }
  }

  /** `dequeue` returns true only having removed an item of `_is` bytes
      (with no other task active: the item at `_back` of this queue), and
      false only when the queue is still empty after a reading strictly
      beyond `millis() + timeout`, copying nothing. */
  lemma DequeueForFacts(q: Buffer, timeout: uint16, env: QEnv)
    requires q.Valid()
    ensures var d := DequeueFor(q, timeout, env);
      var used := |env.clock| - |d.rest.clock|;
      d.q.Valid() && 0 <= used <= |env.clock| &&
      (d.outcome == Returned(true) ==> d.q.count < d.q.qs && |d.item| == q.isz as nat) &&
      (Alone(env) && d.outcome == Returned(true) ==> !q.IsEmpty() && d.item == Head(q) && d.q == Taken(q)) &&
      (d.outcome != Returned(true) ==> d.item == []) &&
      (d.outcome == Returned(false) ==>
         d.q.IsEmpty() && 2 <= used && env.clock[used - 1] > Add32(env.clock[0], timeout))
  {
    if env.clock != [] {
      var t := Add32(env.clock[0], timeout);
      var e := env.Tick();
      AwaitFacts(q, false, t, e);
      if Alone(env) {
        assert Alone(e);
        AwaitAlone(q, false, t, e);
      }
      var w := Await(q, false, t, e);
      var used := |e.clock| - |w.rest.clock|;
      if w.outcome == Returned(false) {
        assert env.clock[used] == e.clock[used - 1];
      }
    }
  }

  /** No other task touches the queue during any yield. */
  predicate Alone(env: QEnv)
  {
    forall k :: 0 <= k < |env.runs| ==> env.runs[k] == []
  }

  /** Left to itself, a wait changes nothing: a failed `enqueue` or
      `dequeue` leaves buffer, offsets and count exactly as they were. */
  lemma {:induction false} AwaitAlone(q: Buffer, putting: bool, time: uint32, env: QEnv)
    requires q.Valid() && Alone(env)
    ensures Await(q, putting, time, env).q == q
    decreases |env.clock|
  {
    if !Ready(q, putting) && env.clock != [] && !(env.clock[0] > time) && env.runs != [] {
      var e := env.Tick().Step();
      assert Run(q, env.runs[0]) == q;
      assert Alone(e) by {
        forall k | 0 <= k < |e.runs|
          ensures e.runs[k] == []
        {
          assert e.runs[k] == env.runs[k + 1];
        }
      }
      AwaitAlone(q, putting, time, e);
    }
  }

  lemma FailedCallsChangeNothing(q: Buffer, item: seq<uint8>, timeout: uint16, env: QEnv)
    requires q.Valid() && |item| == q.isz as nat && Alone(env)
    ensures EnqueueFor(q, item, timeout, env).outcome == Returned(false) ==> EnqueueFor(q, item, timeout, env).q == q
    ensures DequeueFor(q, timeout, env).outcome == Returned(false) ==> DequeueFor(q, timeout, env).q == q
  {
    if env.clock != [] {
      AwaitAlone(q, true, Add32(env.clock[0], timeout), env.Tick());
      AwaitAlone(q, false, Add32(env.clock[0], timeout), env.Tick());
    }
  }

  /** `count` items of one byte from `start` on, oldest first. */
  function Items(bytes: seq<uint8>, start: nat, n: nat, qs: nat): (r: seq<uint8>)
    requires start < qs <= |bytes|
    ensures |r| == n
    decreases n
  {
    if n == 0 then [] else [bytes[start]] + Items(bytes, Succ(start, qs), n - 1, qs)
  }

  /** With one-byte items and `_qs > 0`, `_front` is `_count` places after
      `_back`. */
  predicate FifoInv(q: Buffer)
  {
    q.Valid() && q.isz == 1 && q.qs > 0 && q.front as nat == Step(q.back as nat, q.count as nat, q.qs as nat)
  }

  /** The queued bytes, oldest first. */
  function Contents(q: Buffer): seq<uint8>
    requires FifoInv(q)
  {
    Items(q.bytes, q.back as nat, q.count as nat, q.qs as nat)
  }

  /** One byte more at the end of the window. */
  lemma {:induction false} ItemsSnoc(bytes: seq<uint8>, start: nat, n: nat, qs: nat)
    requires start < qs <= |bytes|
    ensures Items(bytes, start, n + 1, qs) == Items(bytes, start, n, qs) + [bytes[Step(start, n, qs)]]
    decreases n
  {
    if n > 0 {
      ItemsSnoc(bytes, Succ(start, qs), n - 1, qs);
      StepShift(start, n - 1, qs);
    }
  }

  /** A write outside the window leaves the window as it was. */
  lemma {:induction false} ItemsWrite(bytes: seq<uint8>, start: nat, n: nat, qs: nat, p: nat, x: uint8)
    requires start < qs <= |bytes| && p < |bytes|
    requires forall k :: 0 <= k < n ==> Step(start, k, qs) != p
    ensures Items(bytes[p := x], start, n, qs) == Items(bytes, start, n, qs)
    decreases n
  {
    if n > 0 {
      assert Step(start, 0, qs) != p;
      forall k | 0 <= k < n - 1
        ensures Step(Succ(start, qs), k, qs) != p
      {
        StepShift(start, k, qs);
        assert Step(start, k + 1, qs) != p;
      }
      ItemsWrite(bytes, Succ(start, qs), n - 1, qs, p, x);
    }
  }

  /** `getNext` with a one-byte item is the ring successor. */
  lemma GetNextIsSucc(x: uint8, qs: uint8)
    requires x < qs
    ensures GetNext(x, 1, qs) as nat == Succ(x as nat, qs as nat)
  {
    SuccIsMod(x as nat, qs as nat);
  }

  /** With one-byte items, `enqueue`'s store appends the byte at the end
      of the queue. */
  lemma PutAppends(q: Buffer, item: seq<uint8>)
    requires FifoInv(q) && !q.IsFull() && |item| == 1
    ensures FifoInv(Put(q, item)) && Contents(Put(q, item)) == Contents(q) + item
  {
    var r := Put(q, item);
    var f, b, c, n := q.front as nat, q.back as nat, q.count as nat, q.qs as nat;
    assert r.bytes == q.bytes[f := item[0]];
    GetNextIsSucc(q.front, q.qs);
    forall k: nat | k < c
      ensures Step(b, k, n) != f
    {
      StepDistinct(b, k, c, n);
    }
    ItemsWrite(q.bytes, b, c, n, f, item[0]);
    ItemsSnoc(r.bytes, b, c, n);
  }

  /** With one-byte items, `dequeue` hands out the oldest byte and leaves
      the rest in order. */
  lemma TakePops(q: Buffer)
    requires FifoInv(q) && !q.IsEmpty()
    ensures Head(q) == [Contents(q)[0]]
    ensures FifoInv(Taken(q)) && Contents(Taken(q)) == Contents(q)[1..]
  {
    GetNextIsSucc(q.back, q.qs);
    StepShift(q.back as nat, q.count as nat - 1, q.qs as nat);
  }

  /** Other tasks' operations keep the one-byte discipline. */
  lemma {:induction false} RunKeepsFifo(q: Buffer, ops: seq<QOp>)
    requires FifoInv(q)
    ensures FifoInv(Run(q, ops))
    decreases |ops|
  {
    if ops != [] {
      var op := ops[0];
      if op.Enq? && !q.IsFull() && |op.item| == 1 {
        PutAppends(q, op.item);
      } else if op.Deq? && !q.IsEmpty() {
        TakePops(q);
      }
      RunKeepsFifo(Apply(q, op), ops[1..]);
    }
  }

  /** The wait keeps the one-byte discipline, whatever other tasks do. */
  lemma {:induction false} AwaitKeepsFifo(q: Buffer, putting: bool, time: uint32, env: QEnv)
    requires FifoInv(q)
    ensures FifoInv(Await(q, putting, time, env).q)
    decreases |env.clock|
  {
    if !Ready(q, putting) && env.clock != [] && !(env.clock[0] > time) && env.runs != [] {
      RunKeepsFifo(q, env.runs[0]);
      AwaitKeepsFifo(Run(q, env.runs[0]), putting, time, env.Tick().Step());
    }
  }

  /** Timed `enqueue` of one-byte items appends: a true result puts the
      byte at the end of the queue as the wait left it, which had room;
      with no other task active, at the end of the queue it started with. */
  lemma EnqueueForFifo(q: Buffer, x: uint8, timeout: uint16, env: QEnv)
    requires FifoInv(q)
    ensures var d := EnqueueFor(q, [x], timeout, env);
      FifoInv(d.q) &&
      (d.outcome == Returned(true) ==>
         env.clock != [] &&
         var w := Await(q, true, Add32(env.clock[0], timeout), env.Tick());
         FifoInv(w.q) && !w.q.IsFull() && Contents(d.q) == Contents(w.q) + [x]) &&
      (Alone(env) && d.outcome == Returned(true) ==> Contents(d.q) == Contents(q) + [x])
  {
    if env.clock != [] {
      var t := Add32(env.clock[0], timeout);
      var w := Await(q, true, t, env.Tick());
      AwaitKeepsFifo(q, true, t, env.Tick());
      if w.outcome == Returned(true) {
        AwaitFacts(q, true, t, env.Tick());
        PutAppends(w.q, [x]);
      }
      if Alone(env) {
        assert Alone(env.Tick());
        AwaitAlone(q, true, t, env.Tick());
      }
    }
  }

  /** Timed `dequeue` of one-byte items pops the oldest byte of the queue
      as the wait left it and keeps the rest in order; with no other task
      active, the oldest byte of the queue it started with. */
  lemma DequeueForFifo(q: Buffer, timeout: uint16, env: QEnv)
    requires FifoInv(q)
    ensures var d := DequeueFor(q, timeout, env);
      FifoInv(d.q) &&
      (d.outcome == Returned(true) ==>
         env.clock != [] &&
         var w := Await(q, false, Add32(env.clock[0], timeout), env.Tick());
         FifoInv(w.q) && Contents(w.q) != [] &&
         d.item == [Contents(w.q)[0]] && Contents(d.q) == Contents(w.q)[1..]) &&
      (Alone(env) && d.outcome == Returned(true) ==>
         Contents(q) != [] && d.item == [Contents(q)[0]] && Contents(d.q) == Contents(q)[1..])
  {
    if env.clock != [] {
      var t := Add32(env.clock[0], timeout);
      var w := Await(q, false, t, env.Tick());
      AwaitKeepsFifo(q, false, t, env.Tick());
      if w.outcome == Returned(true) {
        AwaitFacts(q, false, t, env.Tick());
        TakePops(w.q);
      }
      if Alone(env) {
        assert Alone(env.Tick());
        AwaitAlone(q, false, t, env.Tick());
      }
    }
  }

  /** Byte FIFO end to end: alone, enqueuing `x` and then dequeuing from a
      non-empty queue hands out the oldest byte, and `x` is now last. */
  lemma FifoOrder(q: Buffer, x: uint8)
    requires FifoInv(q) && 0 < q.count < q.qs
    ensures var r := Taken(Put(q, [x]));
      Head(Put(q, [x])) == [Contents(q)[0]] && FifoInv(r) && Contents(r) == Contents(q)[1..] + [x]
  {
    var p := Put(q, [x]);
    PutAppends(q, [x]);
    TakePops(p);
    assert Contents(p)[0] == Contents(q)[0];
    assert Contents(p)[1..] == Contents(q)[1..] + [x];
  }

  /** With two-byte items the offsets advance by 2 but wrap at `_qs`: in a
      queue of four items the third item is copied over the first, and the
      first dequeue hands out the third item. */
  lemma WideItemsOverwrite()
    ensures var q0 := Buffer(seq(8, _ => 0), 0, 0, 0, 4, 2);
      var q3 := Put(Put(Put(q0, [1, 1]), [2, 2]), [3, 3]);
      q3.count == 3 && Head(q3) == [3, 3]
  {
    var q0 := Buffer(seq(8, _ => 0), 0, 0, 0, 4, 2);
    assert q0.bytes == [0, 0, 0, 0, 0, 0, 0, 0];
    var q1 := Put(q0, [1, 1]);
    assert q0.bytes[2..] == [0, 0, 0, 0, 0, 0];
    assert GetNext(0, 2, 4) == 2;
    assert q1.bytes == [1, 1] + [0, 0, 0, 0, 0, 0] && q1.front == 2;
    var q2 := Put(q1, [2, 2]);
    assert q1.bytes[..2] == [1, 1] && q1.bytes[4..] == [0, 0, 0, 0];
    assert GetNext(2, 2, 4) == 0;
    assert q2.bytes == [1, 1] + [2, 2] + [0, 0, 0, 0] && q2.front == 0;
    var q3 := Put(q2, [3, 3]);
    assert q2.bytes[2..] == [2, 2, 0, 0, 0, 0];
    assert q3.bytes == [3, 3] + [2, 2, 0, 0, 0, 0];
  }

  /** `Queue` of src/queue.cpp. */
  class Queue {
    const data: array<uint8>
    var front: uint8
    var back: uint8
    var count: uint8
    /** `_qs`: `queue_size` truncated to 8 bits. */
    const qs: uint8
    /** `_is`. */
    const isz: uint8

    function View(): Buffer
      reads this, data
    {
      Buffer(data[..], front, back, count, qs, isz)
    }

    predicate Valid()
      reads this, data
    {
      View().Valid()
    }

    /** `Queue(queue_size, item_size)`: `_qs` keeps the low 8 bits of
        `queue_size`; the buffer has `queue_size * item_size` bytes. */
    constructor (queueSize: uint16, itemSize: uint8)
      requires queueSize as nat * itemSize as nat < 0x1_0000
      ensures Valid() && fresh(data)
      ensures qs as nat == queueSize as nat % 0x100 && isz == itemSize
      ensures data.Length == queueSize as nat * itemSize as nat
      ensures front == 0 && back == 0 && count == 0
    {
      MulMono(queueSize as nat % 0x100, queueSize as nat, itemSize as nat);
      qs := (queueSize as nat % 0x100) as uint8;
      isz := itemSize;
      data := new uint8[queueSize as nat * itemSize as nat];
      front, back, count := 0, 0, 0;
    }

    /** `isEmpty()`: exactly when `dequeue` has to wait; with one-byte
        items, exactly when no byte is queued. */
    function IsEmpty(): (r: bool)
      reads this, data
      requires Valid()
      ensures r <==> !Ready(View(), false)
      ensures FifoInv(View()) ==> (r <==> Contents(View()) == [])
    {
      count == 0
    }

    /** `isFull()`: exactly when `enqueue` has to wait; with one-byte
        items, exactly when `_qs` bytes are queued. */
    function IsFull(): (r: bool)
      reads this, data
      requires Valid()
      ensures r <==> !Ready(View(), true)
      ensures FifoInv(View()) ==> (r <==> |Contents(View())| == qs as nat)
    {
      count == qs
    }

    /** `count()`: never above `_qs`. */
    function Count(): (r: uint8)
      reads this, data
      requires Valid()
      ensures r <= qs
    {
      count
    }

    /** `empty()`: all three counters back to 0; the buffer keeps its
        bytes. (The source declares a `bool` result but returns none.) */
    method Empty()
      requires Valid()
      modifies this
      ensures Valid() && View() == old(View()).(front := 0, back := 0, count := 0)
    {
      front, back, count := 0, 0, 0;
    }

    /** One `OS.yield()`: the other tasks run their operations. */
    method Interleave(ops: seq<QOp>)
      requires Valid()
      modifies this, data
      ensures Valid() && View() == Run(old(View()), ops)
    {
      var r := Run(View(), ops);
      forall i | 0 <= i < data.Length {
        data[i] := r.bytes[i];
      }
      assert data[..] == r.bytes;
      front, back, count := r.front, r.back, r.count;
    }

    /** `memcpy(_data+_front, data, _is); getNext(_front); _count++;` */
    method Store(item: seq<uint8>)
      requires Valid() && !IsFull() && |item| == isz as nat
      modifies this, data
      ensures Valid() && View() == Put(old(View()), item)
    {
      var f := front as nat;
      ghost var r := Put(View(), item);
      if isz > 0 {
        CopyInBounds(View(), front);
        forall i | 0 <= i < |item| {
          data[f + i] := item[i];
        }
        assert data[..] == r.bytes;
      }
      front := GetNext(front, isz, qs);
      count := count + 1;
    }

    /** `enqueue(data, timeout)`. */
    method Enqueue(item: seq<uint8>, timeout: uint16, env: QEnv) returns (r: Call<bool>, rest: QEnv)
      requires Valid() && |item| == isz as nat
      modifies this, data
      ensures Valid()
      ensures EnqueueFor(old(View()), item, timeout, env) == Done(View(), r, [], rest)
    {
      if env.clock == [] {
        return Pending, env;
      }
      var time := Add32(env.clock[0], timeout);
      rest := env.Tick();
      ghost var start := rest;
      while IsFull()
        invariant Valid()
        invariant Await(old(View()), true, time, start) == Await(View(), true, time, rest)
        decreases |rest.clock|
      {
        if rest.clock == [] {
          return Pending, rest;
        }
        if rest.clock[0] > time {
          return Returned(false), rest.Tick();
        }
        rest := rest.Tick();
        if rest.runs == [] {
          return Pending, rest;
        }
        Interleave(rest.runs[0]);
        rest := rest.Step();
      }
      Store(item);
      r := Returned(true);
    }

    /** `dequeue(data, timeout)`; `item` is what is copied out. */
    method Dequeue(timeout: uint16, env: QEnv) returns (r: Call<bool>, item: seq<uint8>, rest: QEnv)
      requires Valid()
      modifies this, data
      ensures Valid()
      ensures DequeueFor(old(View()), timeout, env) == Done(View(), r, item, rest)
    {
      item := [];
      if env.clock == [] {
        return Pending, item, env;
      }
      var time := Add32(env.clock[0], timeout);
      rest := env.Tick();
      ghost var start := rest;
      while IsEmpty()
        invariant Valid() && item == []
        invariant Await(old(View()), false, time, start) == Await(View(), false, time, rest)
        decreases |rest.clock|
      {
        if rest.clock == [] {
          return Pending, item, rest;
        }
        if rest.clock[0] > time {
          return Returned(false), item, rest.Tick();
        }
        rest := rest.Tick();
        if rest.runs == [] {
          return Pending, item, rest;
        }
        Interleave(rest.runs[0]);
        rest := rest.Step();
      }
      if isz > 0 {
        CopyInBounds(View(), back);
        item := data[back .. back as nat + isz as nat];
      }
      back := GetNext(back, isz, qs);
      count := count - 1;
      r := Returned(true);
    }
  }
}
