/**
 * TcpBuffer (net/tcp_buffer.cc): a byte vector with a read and a write index that grows when a write does not fit and
 * moves its contents to the front when the read index has passed a third of it.  Seen from outside it is a queue of
 * bytes.
 */
module TcpBuffer {
  import opened Sequences

  /** buffer_, read_index_ and write_index_ */
  datatype Buffer = Buffer(data: seq<Byte>, read: int, write: int) {
    predicate Valid() {
      0 <= read <= write <= |data|
    }

    /** readAble */
    function Readable(): int {
      write - read
    }

    /** writeAble */
    function Writable(): int {
      |data| - write
    }

    /** The bytes written and not yet read. */
    function Contents(): seq<Byte>
      requires Valid()
    {
      data[read..write]
    }
  }

  function Zeros(n: nat): (s: seq<Byte>)
    ensures |s| == n
  {
    seq(n, i => 0)
  }

  /** memcpy to position at. */
  function Overwrite(data: seq<Byte>, at: nat, bytes: seq<Byte>): (r: seq<Byte>)
    requires at + |bytes| <= |data|
    ensures |r| == |data| && r[..at] == data[..at] && r[at..at + |bytes|] == bytes
  {
    data[..at] + bytes + data[at + |bytes|..]
  }

  /** resizeBuffer: a new vector with as much of the contents as fits, at the front. */
  function Resize(b: Buffer, size: nat): (r: Buffer)
    requires b.Valid()
    ensures r.Valid() && |r.data| == size && r.read == 0
    ensures r.Contents() == if b.Readable() <= size then b.Contents() else b.Contents()[..size]
  {
    var c := if size < b.Readable() then size else b.Readable();
    var r := Buffer(Overwrite(Zeros(size), 0, b.data[b.read..b.read + c]), 0, c);
    assert r.Contents() == b.Contents()[..c];
    r
  }

  /** adjustBuffer: compaction. */
  function Adjust(b: Buffer): (r: Buffer)
    requires b.Valid()
    ensures r.Valid() && |r.data| == |b.data| && r.Contents() == b.Contents()
    ensures if b.read <= |b.data| / 3 then r == b else r.read == 0
  {
    if b.read > |b.data| / 3 then
      Buffer(Overwrite(Zeros(|b.data|), 0, b.Contents()), 0, b.Readable())
    else b
  }

  /** writeToBuffer: growth to one and a half times what is needed. */
  function Write(b: Buffer, bytes: seq<Byte>): (r: Buffer)
    requires b.Valid()
    ensures r.Valid() && r.Contents() == b.Contents() + bytes
    ensures |r.data| == if |bytes| <= b.Writable() then |b.data| else (b.write + |bytes|) + (b.write + |bytes|) / 2
    ensures r.read == if |bytes| <= b.Writable() then b.read else 0
  {
    var g := if |bytes| > b.Writable() then Resize(b, 3 * (b.write + |bytes|) / 2) else b;
    assert g.write + |bytes| <= |g.data| && g.Contents() == b.Contents();
    var r := Buffer(Overwrite(g.data, g.write, bytes), g.read, g.write + |bytes|);
    assert r.data[g.read..g.write] == g.data[g.read..g.write] by {
      assert r.data[..g.write] == g.data[..g.write];
      assert r.data[..g.write][g.read..] == g.data[..g.write][g.read..];
    }
    assert r.data[g.read..r.write] == r.data[g.read..g.write] + r.data[g.write..r.write];
    r
  }

  /** readFromBuffer: up to size bytes from the front; an empty buffer leaves everything as it is. */
  function Read(b: Buffer, size: nat): (r: (Buffer, seq<Byte>))
    requires b.Valid()
    ensures r.0.Valid() && |r.0.data| == |b.data|
    ensures r.1 + r.0.Contents() == b.Contents()
    ensures |r.1| == if size < b.Readable() then size else b.Readable()
    ensures r.1 != [] ==> r.0.read <= |b.data| / 3
  {
    if b.Readable() == 0 then (b, [])
    else
      var n := if b.Readable() > size then size else b.Readable();
      var out := b.data[b.read..b.read + n];
      var moved := b.(read := b.read + n);
      assert out + moved.Contents() == b.Contents();
      (Adjust(moved), out)
  }

  /** What a recycle step leaves: indices that may be out of order, or a memcpy of a negative count. */
  datatype Recycled = Left(b: Buffer) | Undefined

  /** adjustBuffer when the indices may be out of order. */
  function Settle(b: Buffer): (r: Recycled)
    requires b.read <= |b.data| && b.write <= |b.data|
    ensures b.Valid() ==> r == Left(Adjust(b))
    ensures r.Left? && r.b.Valid() ==> b.Valid()
  {
    if b.read <= |b.data| / 3 then Left(b)
    else if b.Readable() < 0 then Undefined
    else Left(Adjust(b))
  }

  /** recycleRead: moves the read index, unless that would reach the end of the vector. */
  function RecycleRead(b: Buffer, index: int): (r: Recycled)
    requires b.Valid()
  {
    if b.read + index >= |b.data| then Left(b) else Settle(b.(read := b.read + index))
  }

  /** recycleWrite: likewise the write index, taking over bytes that were put behind it. */
  function RecycleWrite(b: Buffer, index: int): (r: Recycled)
    requires b.Valid()
  {
    if b.write + index >= |b.data| then Left(b) else Settle(b.(write := b.write + index))
  }

  /** The indices stay in order exactly if the step is refused or the new index lies between 0 and the write index. */
  lemma RecycleReadValid(b: Buffer, index: int)
    requires b.Valid()
    ensures var r := RecycleRead(b, index);
      r.Left? && r.b.Valid() <==> b.read + index >= |b.data| || 0 <= b.read + index <= b.write
  {}

  lemma RecycleWriteValid(b: Buffer, index: int)
    requires b.Valid()
    ensures var r := RecycleWrite(b, index);
      r.Left? && r.b.Valid() <==> b.write + index >= b.read
  {}

  /**
   * index bytes are dropped exactly when there are that many and the step ends before the end of the vector: consuming
   * the last byte of a full vector is refused.
   */
  lemma RecycleReadExactly(b: Buffer, index: nat)
    requires b.Valid()
    ensures var r := RecycleRead(b, index);
      (r.Left? && r.b.Valid() && index <= b.Readable() && r.b.Contents() == b.Contents()[index..])
      <==> index == 0 || (index <= b.Readable() && b.read + index < |b.data|)
  {
    hide Adjust;
    var moved := b.(read := b.read + index);
    if index <= b.Readable() {
      assert moved.Contents() == b.Contents()[index..];
      assert |b.Contents()[index..]| == |b.Contents()| - index;
    }
  }

  /** Bytes placed behind the write index are taken over exactly when some room is left behind them. */
  lemma RecycleWriteExactly(b: Buffer, bytes: seq<Byte>)
    requires b.Valid() && b.write + |bytes| <= |b.data|
    ensures var r := RecycleWrite(Fill(b, bytes), |bytes|);
      && r.Left? && r.b.Valid()
      && (r.b.Contents() == b.Contents() + bytes <==> bytes == [] || b.write + |bytes| < |b.data|)
  {
    hide Adjust;
    var filled := Fill(b, bytes);
    Behind(filled, |bytes|);
    assert filled.data[b.write..b.write + |bytes|] == bytes;
  }

  /** Someone writes to the vector behind the write index. */
  function Fill(b: Buffer, bytes: seq<Byte>): (r: Buffer)
    requires b.Valid() && b.write + |bytes| <= |b.data|
    ensures r.Valid() && |r.data| == |b.data| && r.read == b.read && r.write == b.write
    ensures r.Contents() == b.Contents() && r.data[b.write..b.write + |bytes|] == bytes
  {
    var r := b.(data := Overwrite(b.data, b.write, bytes));
    assert r.data[..b.write][b.read..] == b.data[..b.write][b.read..];
    r
  }

  lemma Behind(b: Buffer, n: nat)
    requires b.Valid() && b.write + n <= |b.data|
    ensures b.(write := b.write + n).Contents() == b.Contents() + b.data[b.write..b.write + n]
  {
    assert b.data[b.read..b.write + n] == b.data[b.read..b.write] + b.data[b.write..b.write + n];
  }

  /** Ten bytes written to an empty buffer leave room for five, so that all ten can be recycled. */
  lemma WrittenCanBeRecycled(bytes: seq<Byte>)
    requires |bytes| == 10
    ensures var b := Write(Buffer([], 0, 0), bytes);
      |b.data| == 15 && b.Contents() == bytes && RecycleRead(b, 10).Left? && RecycleRead(b, 10).b.Valid()
      && RecycleRead(b, 10).b.Contents() == []
  {
    hide Write, Resize, Adjust;
    var b := Write(Buffer([], 0, 0), bytes);
    assert [] + bytes == bytes;
    RecycleReadValid(b, 10);
    RecycleReadExactly(b, 10);
  }

  /** A vector of one byte, full: neither reading it nor a write that fills a vector is recycled. */
  lemma RefusedAtTheEnd()
    ensures RecycleRead(Buffer([7], 0, 1), 1) == Left(Buffer([7], 0, 1))
    ensures RecycleWrite(Fill(Buffer([0], 0, 0), [7]), 1) == Left(Buffer([7], 0, 0))
  {
    assert Overwrite([0], 0, [7]) == [7];
  }

  /** Dropping more than there is leaves the indices out of order, or has a negative count copied. */
  lemma DroppedTooMuch()
    ensures RecycleRead(Buffer([7, 7, 7], 0, 0), 1) == Left(Buffer([7, 7, 7], 1, 0))
    ensures RecycleRead(Buffer([7, 7, 7], 0, 0), 2) == Undefined
  {}

  // ---------- every sequence of operations ----------

  datatype Op =
    | Put(bytes: seq<Byte>)       // writeToBuffer
    | Get(size: nat)              // readFromBuffer
    | Compact                     // adjustBuffer
    | SetSize(size: nat)          // resizeBuffer
    | Clear                       // clearBuffer
    | Skip(index: nat)            // recycleRead
    | Place(bytes: seq<Byte>)     // a write to the vector behind the write index
    | Commit(index: nat)          // recycleWrite

  /** What callers owe: no byte is skipped that is not there, and no byte placed outside the vector. */
  predicate Allowed(b: Buffer, op: Op)
    requires b.Valid()
  {
    match op
    case Skip(index) => index <= b.Readable() || b.read + index >= |b.data|
    case Place(bytes) => b.write + |bytes| <= |b.data|
    case _ => true
  }

  /** The buffer after the operation and what was taken out. */
  function Step(b: Buffer, op: Op): (r: (Buffer, seq<Byte>))
    requires b.Valid() && Allowed(b, op)
    ensures r.0.Valid()
  {
    match op
    case Put(bytes) => (Write(b, bytes), [])
    case Get(size) => Read(b, size)
    case Compact => (Adjust(b), [])
    case SetSize(size) => (Resize(b, size), [])
    case Clear => (Buffer([], 0, 0), [])
    case Skip(index) =>
      RecycleReadValid(b, index);
      (RecycleRead(b, index).b, if b.read + index >= |b.data| then [] else b.Contents()[..index])
    case Place(bytes) => (Fill(b, bytes), [])
    case Commit(index) =>
      RecycleWriteValid(b, index);
      (RecycleWrite(b, index).b, [])
  }

  // ---------- the queue ----------

  /** A queue of bytes: add at the end, take from the front, or keep only the first n. */
  datatype QueueOp = Add(bytes: seq<Byte>) | Take(n: nat) | Keep(n: nat)

  /** The queue after the operation and what was taken out; taking from and keeping of a short queue is all of it. */
  function QueueStep(q: seq<Byte>, op: QueueOp): (seq<Byte>, seq<Byte>) {
    match op
    case Add(bytes) => (q + bytes, [])
    case Take(n) => if n <= |q| then (q[n..], q[..n]) else ([], q)
    case Keep(n) => (if n <= |q| then q[..n] else q, [])
  }

  /** What an operation means for the queue; a refused recycle step means nothing. */
  function Meaning(b: Buffer, op: Op): QueueOp
    requires b.Valid()
  {
    match op
    case Put(bytes) => Add(bytes)
    case Get(size) => Take(size)
    case Compact => Add([])
    case SetSize(size) => Keep(size)
    case Clear => Keep(0)
    case Skip(index) => if b.read + index >= |b.data| then Take(0) else Take(index)
    case Place(bytes) => Add([])
    case Commit(index) => if b.write + index >= |b.data| then Add([]) else Add(b.data[b.write..b.write + index])
  }

  lemma SkipIsQueue(b: Buffer, index: nat)
    requires b.Valid() && Allowed(b, Skip(index))
    ensures (Step(b, Skip(index)).0.Contents(), Step(b, Skip(index)).1) == QueueStep(b.Contents(), Meaning(b, Skip(index)))
  {
    hide Adjust;
    if b.read + index < |b.data| {
      RecycleReadExactly(b, index);
    }
  }

  lemma CommitIsQueue(b: Buffer, index: nat)
    requires b.Valid()
    ensures (Step(b, Commit(index)).0.Contents(), Step(b, Commit(index)).1)
         == QueueStep(b.Contents(), Meaning(b, Commit(index)))
  {
    hide Adjust;
    if b.write + index < |b.data| {
      Behind(b, index);
    } else {
      assert b.Contents() + [] == b.Contents();
    }
  }

  lemma SetSizeIsQueue(b: Buffer, size: nat)
    requires b.Valid()
    ensures (Step(b, SetSize(size)).0.Contents(), Step(b, SetSize(size)).1) == QueueStep(b.Contents(), Keep(size))
  {
    hide Resize;
    assert b.Contents()[..|b.Contents()|] == b.Contents();
  }

  lemma PlainIsQueue(b: Buffer, op: Op)
    requires b.Valid() && Allowed(b, op) && (op.Put? || op.Compact? || op.Clear? || op.Place?)
    ensures (Step(b, op).0.Contents(), Step(b, op).1) == QueueStep(b.Contents(), Meaning(b, op))
  {
    hide Adjust, Write, Fill;
    assert b.Contents() + [] == b.Contents();
  }

  /** One operation on the buffer is its meaning on the queue. */
  lemma StepIsQueue(b: Buffer, op: Op)
    requires b.Valid() && Allowed(b, op)
    ensures (Step(b, op).0.Contents(), Step(b, op).1) == QueueStep(b.Contents(), Meaning(b, op))
  {
    hide Step, QueueStep;
    match op
    case Skip(index) => SkipIsQueue(b, index);
    case Commit(index) => CommitIsQueue(b, index);
    case Get(size) => GetIsQueue(b, size);
    case SetSize(size) => SetSizeIsQueue(b, size);
    case _ => PlainIsQueue(b, op);
  }

  lemma GetIsQueue(b: Buffer, size: nat)
    requires b.Valid()
    ensures (Step(b, Get(size)).0.Contents(), Step(b, Get(size)).1) == QueueStep(b.Contents(), Take(size))
  {
    hide Read;
    FrontIsTaken(b.Contents(), Read(b, size).1, Read(b, size).0.Contents(), size);
  }

  lemma FrontIsTaken(q: seq<Byte>, x: seq<Byte>, y: seq<Byte>, n: nat)
    requires q == x + y && |x| == if n < |q| then n else |q|
    ensures QueueStep(q, Take(n)) == (y, x)
  {
    assert q[|x|..] == y && q[..|x|] == x;
    assert q[..|q|] == q;
  }

  predicate Possible(b: Buffer, ops: seq<Op>)
    requires b.Valid()
    decreases ops
  {
    ops == [] || (Allowed(b, ops[0]) && Possible(Step(b, ops[0]).0, ops[1..]))
  }

  function After(b: Buffer, ops: seq<Op>): (r: Buffer)
    requires b.Valid() && Possible(b, ops)
    ensures r.Valid()
    decreases ops
  {
    if ops == [] then b else After(Step(b, ops[0]).0, ops[1..])
  }

  /** Everything taken out, in order. */
  function TakenOut(b: Buffer, ops: seq<Op>): seq<Byte>
    requires b.Valid() && Possible(b, ops)
    decreases ops
  {
    if ops == [] then [] else Step(b, ops[0]).1 + TakenOut(Step(b, ops[0]).0, ops[1..])
  }

  function Meanings(b: Buffer, ops: seq<Op>): seq<QueueOp>
    requires b.Valid() && Possible(b, ops)
    decreases ops
  {
    if ops == [] then [] else [Meaning(b, ops[0])] + Meanings(Step(b, ops[0]).0, ops[1..])
  }

  /** The queue after a sequence of operations, and everything taken out. */
  function QueueRun(q: seq<Byte>, ops: seq<QueueOp>): (seq<Byte>, seq<Byte>)
    decreases ops
  {
    if ops == [] then (q, [])
    else
      var (q', out) := QueueStep(q, ops[0]);
      var (end, others) := QueueRun(q', ops[1..]);
      (end, out + others)
  }

  /**
   * The buffer is a queue of bytes over every sequence of operations, refused recycle steps included: its contents and
   * all that was taken out are those of the queue.
   */
  lemma {:induction false} RefinesQueue(b: Buffer, ops: seq<Op>)
    requires b.Valid() && Possible(b, ops)
    ensures (After(b, ops).Contents(), TakenOut(b, ops)) == QueueRun(b.Contents(), Meanings(b, ops))
    decreases ops
  {
    hide Step, Meaning, QueueStep, Allowed;
    if ops != [] {
      StepIsQueue(b, ops[0]);
      var b' := Step(b, ops[0]).0;
      RefinesQueue(b', ops[1..]);
      assert Meanings(b, ops)[1..] == Meanings(b', ops[1..]);
    }
  }

  /** Everything added, in order. */
  function Added(ops: seq<QueueOp>): seq<Byte> {
    if ops == [] then [] else (if ops[0].Add? then ops[0].bytes else []) + Added(ops[1..])
  }

  lemma {:induction false} QueueConserves(q: seq<Byte>, ops: seq<QueueOp>)
    requires forall i :: 0 <= i < |ops| ==> !ops[i].Keep?
    ensures QueueRun(q, ops).1 + QueueRun(q, ops).0 == q + Added(ops)
    decreases ops
  {
    if ops == [] {
      assert q + [] == q;
    } else {
      var (q', out) := QueueStep(q, ops[0]);
      var first := if ops[0].Add? then ops[0].bytes else [];
      assert out + q' == q + first;
      QueueConserves(q', ops[1..]);
      var (end, others) := QueueRun(q', ops[1..]);
      Reassociate(out, others, end, q', Added(ops[1..]), q, first);
    }
  }

  lemma Reassociate(out: seq<Byte>, others: seq<Byte>, end: seq<Byte>, q': seq<Byte>, more: seq<Byte>, q: seq<Byte>, first: seq<Byte>)
    requires others + end == q' + more && out + q' == q + first
    ensures (out + others) + end == q + (first + more)
  {
    assert (out + others) + end == out + (others + end);
    assert out + (q' + more) == (out + q') + more;
    assert (q + first) + more == q + (first + more);
  }

  /**
   * Without truncation no byte is lost, doubled or reordered: what was in the buffer and went in is what came out,
   * followed by what is still in it.  In particular the bytes read are a prefix of the bytes written.
   */
  lemma ByteQueue(b: Buffer, ops: seq<Op>)
    requires b.Valid() && Possible(b, ops)
    requires forall i :: 0 <= i < |ops| ==> !ops[i].SetSize? && !ops[i].Clear?
    ensures TakenOut(b, ops) + After(b, ops).Contents() == b.Contents() + Added(Meanings(b, ops))
  {
    hide After, TakenOut, QueueRun, Added, Meanings;
    RefinesQueue(b, ops);
    NothingKept(b, ops);
    QueueConserves(b.Contents(), Meanings(b, ops));
  }

  lemma {:induction false} NothingKept(b: Buffer, ops: seq<Op>)
    requires b.Valid() && Possible(b, ops)
    requires forall i :: 0 <= i < |ops| ==> !ops[i].SetSize? && !ops[i].Clear?
    ensures forall i :: 0 <= i < |Meanings(b, ops)| ==> !Meanings(b, ops)[i].Keep?
    decreases ops
  {
    hide Step, Allowed;
    if ops != [] {
      NothingKept(Step(b, ops[0]).0, ops[1..]);
    }
  }

  /** The buffer as an object. */
  class Tcp {
    /** buffer_ */
    var data: seq<Byte>
    /** read_index_, write_index_ */
    var read: int
    var write: int

    ghost function View(): Buffer
      reads this
    {
      Buffer(data, read, write)
    }

    constructor (size: nat)
      ensures View().Valid() && View().Contents() == [] && |data| == size
    {
      data := Zeros(size);
      read, write := 0, 0;
    }

    method ResizeBuffer(size: nat)
      requires View().Valid()
      modifies this
      ensures View() == Resize(old(View()), size)
    {
      var tmp := Zeros(size);
      var c := if size < write - read then size else write - read;
      tmp := Overwrite(tmp, 0, data[read..read + c]);
      data := tmp;
      read := 0;
      write := read + c;
    }

    method WriteToBuffer(bytes: seq<Byte>)
      requires View().Valid()
      modifies this
      ensures View() == Write(old(View()), bytes)
    {
      hide Resize, Overwrite;
      if |bytes| > |data| - write {
        var size := 3 * (write + |bytes|) / 2;
        ResizeBuffer(size);
      }
      data := Overwrite(data, write, bytes);
      write := write + |bytes|;
    }

    method AdjustBuffer()
      requires View().Valid()
      modifies this
      ensures View() == Adjust(old(View()))
    {
      if read > |data| / 3 {
        var fresh' := Zeros(|data|);
        var count := write - read;
        fresh' := Overwrite(fresh', 0, data[read..read + count]);
        data := fresh';
        write := count;
        read := 0;
      }
    }

    /** re is the caller's vector: replaced by what was read, left alone if there was nothing. */
    method ReadFromBuffer(re: seq<Byte>, size: nat) returns (re': seq<Byte>)
      requires View().Valid()
      modifies this
      ensures View() == Read(old(View()), size).0
      ensures re' == if old(View()).Readable() == 0 then re else Read(old(View()), size).1
    {
      hide Adjust, Overwrite;
      if write - read == 0 {
        return re;
      }
      var n := if write - read > size then size else write - read;
      re' := data[read..read + n];
      read := read + n;
      AdjustBuffer();
    }

    /** Not ok when a negative count is copied. */
    method SettleBuffer() returns (ok: bool)
      requires read <= |data| && write <= |data|
      modifies this
      ensures ok <==> Settle(old(View())).Left?
      ensures ok ==> Left(View()) == Settle(old(View()))
    {
      hide Adjust;
      ok := true;
      if read > |data| / 3 {
        if write < read {
          return false;
        }
        AdjustBuffer();
      }
    }

    method RecycleReadIndex(index: int) returns (ok: bool)
      requires View().Valid()
      modifies this
      ensures ok <==> RecycleRead(old(View()), index).Left?
      ensures ok ==> Left(View()) == RecycleRead(old(View()), index)
    {
      hide Settle;
      var j := read + index;
      if j >= |data| {
        return true;
      }
      read := j;
      ok := SettleBuffer();
    }

    method RecycleWriteIndex(index: int) returns (ok: bool)
      requires View().Valid()
      modifies this
      ensures ok <==> RecycleWrite(old(View()), index).Left?
      ensures ok ==> Left(View()) == RecycleWrite(old(View()), index)
    {
      hide Settle;
      var j := write + index;
      if j >= |data| {
        return true;
      }
      write := j;
      ok := SettleBuffer();
    }

    method ClearBuffer()
      requires View().Valid()
      modifies this
      ensures View() == Buffer([], 0, 0)
    {
      data := [];
      read := 0;
      write := 0;
    }
  }
}
