/** The linear I/O buffer of src/buffer.c: one byte array, a read and a write
    offset, automatic rewind when it runs empty, compaction on demand. */
module LinearBuffer {
  import opened Bytes

  /** What a buffer stands for: the unread bytes, how far the read offset has
      moved into the array, and the size of the array. */
  datatype Queue = Queue(contents: seq<byte>, offset: nat, capacity: nat) {

    /** R <= W <= limit, and an empty buffer is rewound to the start. */
    predicate Valid() {
      offset + |contents| <= capacity && (contents == [] ==> offset == 0)
    }

    function Room(): int {
      capacity - offset - |contents|
    }

    function Put(bytes: seq<byte>): Queue {
      this.(contents := contents + bytes)
    }

    function Take(n: nat): Queue
      requires n <= |contents|
    {
      if n == |contents| then Queue([], 0, capacity) else Queue(contents[n..], offset + n, capacity)
    }

    function Compacted(): Queue {
      this.(offset := 0)
    }
  }

  lemma TakeTwice(q: Queue, m: nat, n: nat)
    requires m + n <= |q.contents|
    ensures n <= |q.Take(m).contents| && q.Take(m).Take(n) == q.Take(m + n)
    ensures q.Take(m).contents == q.contents[m..] && q.Take(m).capacity == q.capacity
  {
  }

  function Empty(capacity: nat): Queue {
    Queue([], 0, capacity)
  }

  class Buffer {
    const data: array<byte>
    var read: nat
    var write: nat

    ghost predicate Valid()
      reads this
    {
      read <= write <= data.Length && (read == write ==> read == 0)
    }

    ghost function View(): (q: Queue)
      requires Valid()
      reads this, data
      ensures q.Valid()
    {
      Queue(data[read..write], read, data.Length)
    }

    constructor (raw: array<byte>)
      ensures Valid() && data == raw && View() == Empty(raw.Length)
    {
      data := raw;
      read, write := 0, 0;
    }

    method Reset()
      requires Valid()
      modifies this
      ensures Valid() && View() == Empty(data.Length)
    {
      read, write := 0, 0;
    }

    predicate CanWrite()
      requires Valid()
      reads this, data
      ensures CanWrite() <==> View().Room() > 0
    {
      data.Length - write > 0
    }

    predicate CanRead()
      requires Valid()
      reads this, data
      ensures CanRead() <==> View().contents != []
    {
      write - read > 0
    }

    /** Byte count offered by buffer_write_ptr. */
    function WriteCount(): (nbyte: nat)
      requires Valid()
      reads this, data
      ensures nbyte == View().Room()
    {
      data.Length - write
    }

    method WriteAdv(bytes: int)
      requires Valid() && bytes <= data.Length - write
      modifies this
      ensures Valid()
      ensures View() == if bytes > -1 then old(View()).Put(old(data[write..write + bytes])) else old(View())
    {
      if bytes > -1 {
        write := write + bytes;
      }
    }

    method ReadAdv(bytes: int)
      requires Valid() && bytes <= write - read
      modifies this, data
      ensures Valid()
      ensures View() == if bytes > -1 then old(View()).Take(bytes) else old(View())
    {
      if bytes > -1 {
        read := read + bytes;
        if read == write {
          Compact();
        }
      }
    }

    method Read() returns (ret: byte)
      requires Valid()
      modifies this, data
      ensures Valid()
      ensures old(CanRead()) ==> ret == old(View()).contents[0] && View() == old(View()).Take(1)
      ensures !old(CanRead()) ==> ret == 0 && View() == old(View())
    {
      if CanRead() {
        ret := data[read];
        ReadAdv(1);
      } else {
        ret := 0;
      }
    }

    method Write(c: byte)
      requires Valid()
      modifies this, data
      ensures Valid()
      ensures View() == if old(CanWrite()) then old(View()).Put([c]) else old(View())
    {
      if CanWrite() {
        data[write] := c;
        WriteAdv(1);
      }
    }

    /** buffer_compact; the loop is the forward copy of an overlapping memmove.
        read_adv calls it on an exhausted buffer that is not yet rewound. */
    method Compact()
      requires read <= write <= data.Length
      modifies this, data
      ensures Valid() && View() == Queue(old(data[read..write]), 0, data.Length)
      ensures old(Valid()) ==> View() == old(View()).Compacted()
    {
      if read == 0 {
      } else if read == write {
        read, write := 0, 0;
      } else {
        var n := write - read;
        var k := 0;
        while k < n
          invariant 0 <= k <= n
          invariant read == old(read) && write == old(write)
          invariant data[..k] == old(data[read..read + k])
          invariant data[read + k..write] == old(data[read + k..write])
        {
          assert data[read + k] == data[read + k..write][0];
          data[k] := data[read + k];
          k := k + 1;
        }
        read, write := 0, n;
      }
    }

    /** What recv or memcpy does through the pointer of buffer_write_ptr,
        followed by the caller's buffer_write_adv. */
    method Fill(src: seq<byte>)
      requires Valid() && |src| <= data.Length - write
      modifies this, data
      ensures Valid() && View() == old(View()).Put(src)
    {
      var k := 0;
      while k < |src|
        invariant 0 <= k <= |src|
        invariant read == old(read) && write == old(write)
        invariant data[..write] == old(data[..write])
        invariant data[write..write + k] == src[..k]
      {
        data[write + k] := src[k];
        k := k + 1;
      }
      assert data[read..write] == data[..write][read..];
      WriteAdv(|src|);
    }
  }

  // ---------------------------------------------------------------------------
  // Any sequence of operations behaves as a bounded FIFO queue.

  datatype BufferOp =
    | Receive(bytes: seq<byte>)  // write_ptr, at most nbyte bytes, write_adv
    | PutByte(c: byte)           // buffer_write
    | ReadAdvance(n: nat)        // read_ptr, read_adv
    | GetByte                    // buffer_read
    | Compaction                 // buffer_compact

  /** The caller's side of write_adv and read_adv: stay within the count offered. */
  predicate Allowed(q: Queue, op: BufferOp) {
    match op
    case Receive(bytes) => |bytes| <= q.Room()
    case ReadAdvance(n) => n <= |q.contents|
    case _ => true
  }

  function Accepted(q: Queue, op: BufferOp): seq<byte> {
    match op
    case Receive(bytes) => bytes
    case PutByte(c) => if q.Room() > 0 then [c] else []
    case _ => []
  }

  function Released(q: Queue, op: BufferOp): seq<byte>
    requires Allowed(q, op)
  {
    match op
    case ReadAdvance(n) => q.contents[..n]
    case GetByte => q.contents[..if q.contents == [] then 0 else 1]
    case _ => []
  }

  function Apply(q: Queue, op: BufferOp): Queue
    requires Allowed(q, op)
  {
    match op
    case Receive(bytes) => q.Put(bytes)
    case PutByte(c) => if q.Room() > 0 then q.Put([c]) else q
    case ReadAdvance(n) => q.Take(n)
    case GetByte => if q.contents == [] then q else q.Take(1)
    case Compaction => q.Compacted()
  }

  predicate AllAllowed(q: Queue, ops: seq<BufferOp>)
    decreases |ops|
  {
    ops == [] || (Allowed(q, ops[0]) && AllAllowed(Apply(q, ops[0]), ops[1..]))
  }

  function ApplyAll(q: Queue, ops: seq<BufferOp>): Queue
    requires AllAllowed(q, ops)
    decreases |ops|
  {
    if ops == [] then q else ApplyAll(Apply(q, ops[0]), ops[1..])
  }

  function AllAccepted(q: Queue, ops: seq<BufferOp>): seq<byte>
    requires AllAllowed(q, ops)
    decreases |ops|
  {
    if ops == [] then [] else Accepted(q, ops[0]) + AllAccepted(Apply(q, ops[0]), ops[1..])
  }

  function AllReleased(q: Queue, ops: seq<BufferOp>): seq<byte>
    requires AllAllowed(q, ops)
    decreases |ops|
  {
    if ops == [] then [] else Released(q, ops[0]) + AllReleased(Apply(q, ops[0]), ops[1..])
  }

  lemma ApplyConserves(q: Queue, op: BufferOp)
    requires q.Valid() && Allowed(q, op)
    ensures Apply(q, op).Valid() && Apply(q, op).capacity == q.capacity
    ensures q.contents + Accepted(q, op) == Released(q, op) + Apply(q, op).contents
  {
  }

  /** First in, first out over every run: what was inside followed by all that
      was accepted is what came out followed by what is still inside. */
  lemma {:induction false} BufferIsFifo(q: Queue, ops: seq<BufferOp>)
    requires q.Valid() && AllAllowed(q, ops)
    ensures ApplyAll(q, ops).Valid() && ApplyAll(q, ops).capacity == q.capacity
    ensures q.contents + AllAccepted(q, ops) == AllReleased(q, ops) + ApplyAll(q, ops).contents
    decreases |ops|
  {
    if ops == [] {
    } else {
      var q' := Apply(q, ops[0]);
      ApplyConserves(q, ops[0]);
      BufferIsFifo(q', ops[1..]);
      calc {
        q.contents + AllAccepted(q, ops);
        (q.contents + Accepted(q, ops[0])) + AllAccepted(q', ops[1..]);
        Released(q, ops[0]) + (q'.contents + AllAccepted(q', ops[1..]));
        AllReleased(q, ops) + ApplyAll(q, ops).contents;
      }
    }
  }

  /** Compaction keeps the bytes and leaves the largest possible room. */
  lemma CompactionOnlyGains(q: Queue)
    requires q.Valid()
    ensures q.Compacted().Valid() && q.Compacted().contents == q.contents
    ensures q.Compacted().Room() == q.capacity - |q.contents| >= q.Room()
    ensures q.Compacted() == q <==> q.offset == 0
  {
  }
}
