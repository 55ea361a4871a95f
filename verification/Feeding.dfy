/** The loop that all byte-fed parsers share (hello_consume, auth_consume,
    request_consume, prawtos_consume): take bytes from the buffer one at a time
    until it is empty or the parser reports a terminal state. */
module Feeding {
  import opened Bytes
  import opened LinearBuffer

  type Feeder<!P> = (P, byte) -> P

  const FIELD_SIZE: nat := 255

  type Field = f: seq<byte> | |f| == FIELD_SIZE witness seq(FIELD_SIZE, _ => 0)

  /** A field that memset has cleared. */
  function Zeroes(): (f: Field)
    ensures forall k :: 0 <= k < FIELD_SIZE ==> f[k] == 0
  {
    seq(FIELD_SIZE, _ => 0)
  }

  /** A zeroed field into which `t` was written from the start. */
  predicate Holds(block: Field, t: seq<byte>) {
    |t| <= FIELD_SIZE && block[..|t|] == t && forall k :: |t| <= k < FIELD_SIZE ==> block[k] == 0
  }

  /** An indexed byte store; past the end of the field nothing is kept. */
  function Store(block: Field, i: nat, c: byte): Field {
    if i < |block| then block[i := c] else block
  }

  /** Writing the next byte extends the text. */
  lemma StoreNext(block: Field, t: seq<byte>, c: byte)
    requires Holds(block, t) && |t| < FIELD_SIZE
    ensures Holds(Store(block, |t|, c), t + [c])
  {
  }

  /** Writing the terminator after the text changes nothing. */
  lemma StoreEnd(block: Field, t: seq<byte>)
    requires Holds(block, t)
    ensures Holds(Store(block, |t|, 0), t)
  {
  }

  /** A field holds a C string unless 255 bytes other than NUL fill it. */
  lemma FieldString(block: Field, t: seq<byte>)
    requires Holds(block, t)
    ensures Terminated(block) <==> |t| < FIELD_SIZE || 0 in t
    ensures 0 !in t && |t| < FIELD_SIZE ==> CStr(block) == t
  {
    if |t| < FIELD_SIZE {
      assert block[|t|] == 0;
      assert block == t + [0] + block[|t| + 1..];
      if 0 !in t {
        CStrOfTerminated(t, block[|t| + 1..]);
      }
    }
  }

  /** The parser after one consume call and the bytes it leaves in the buffer. */
  function Consume<P>(feed: Feeder<P>, done: P -> bool, p: P, input: seq<byte>): (r: (P, seq<byte>))
    ensures |r.1| <= |input| && r.1 == input[|input| - |r.1|..]
    ensures r.1 != [] ==> done(r.0)
    decreases |input|
  {
    if input == [] then (p, [])
    else
      var p' := feed(p, input[0]);
      if done(p') then (p', input[1..]) else Consume(feed, done, p', input[1..])
  }

  lemma ConsumeThree<P>(feed: Feeder<P>, done: P -> bool, p: P, a: byte, b: byte, c: byte)
    requires !done(feed(p, a)) && !done(feed(feed(p, a), b)) && done(feed(feed(feed(p, a), b), c))
    ensures Consume(feed, done, p, [a, b, c]) == (feed(feed(feed(p, a), b), c), [])
  {
    assert [a, b, c][1..] == [b, c] && [b, c][1..] == [c] && [c][1..] == [];
    assert Consume(feed, done, feed(feed(p, a), b), [c]) == (feed(feed(feed(p, a), b), c), []);
    assert Consume(feed, done, feed(p, a), [b, c]) == (feed(feed(feed(p, a), b), c), []);
  }

  /** The state of the loop after `k` bytes: `p` is the parser reached from `p0`,
      and `finished` tells whether a byte led to a terminal state. */
  ghost predicate Progress<P>(feed: Feeder<P>, done: P -> bool, p0: P, input: seq<byte>, p: P, k: int, finished: bool) {
    && 0 <= k <= |input|
    && (finished <==> k > 0 && done(p))
    && Consume(feed, done, p0, input) == if finished then (p, input[k..]) else Consume(feed, done, p, input[k..])
  }

  lemma ProgressStep<P>(feed: Feeder<P>, done: P -> bool, p0: P, input: seq<byte>, p: P, k: int)
    requires Progress(feed, done, p0, input, p, k, false) && k < |input|
    ensures var p' := feed(p, input[k]); Progress(feed, done, p0, input, p', k + 1, done(p'))
  {
    assert input[k..][1..] == input[k + 1..];
  }

  lemma ProgressEnd<P>(feed: Feeder<P>, done: P -> bool, p0: P, input: seq<byte>, p: P, k: int, finished: bool)
    requires Progress(feed, done, p0, input, p, k, finished) && (finished || k == |input|)
    ensures Consume(feed, done, p0, input) == (p, input[k..])
  {
  }

  function Concat(chunks: seq<seq<byte>>): seq<byte> {
    if chunks == [] then [] else chunks[0] + Concat(chunks[1..])
  }

  /** One consume call per chunk received, until the parser is done; later
      chunks just queue up behind what is left in the buffer. */
  function ConsumeChunks<P>(feed: Feeder<P>, done: P -> bool, p: P, chunks: seq<seq<byte>>): (P, seq<byte>)
    decreases |chunks|
  {
    if chunks == [] then (p, [])
    else
      var (p', rest) := Consume(feed, done, p, chunks[0]);
      if chunks[0] != [] && done(p') then (p', rest + Concat(chunks[1..]))
      else ConsumeChunks(feed, done, p', chunks[1..])
  }

  lemma {:induction false} ConsumeSplit<P>(feed: Feeder<P>, done: P -> bool, p: P, a: seq<byte>, b: seq<byte>)
    ensures var (q, rest) := Consume(feed, done, p, a);
            Consume(feed, done, p, a + b) ==
              if a != [] && done(q) then (q, rest + b) else Consume(feed, done, q, b)
    decreases |a|
  {
    if a == [] {
      assert a + b == b;
    } else {
      var p' := feed(p, a[0]);
      assert (a + b)[1..] == a[1..] + b;
      if !done(p') {
        ConsumeSplit(feed, done, p', a[1..], b);
        if a[1..] == [] {
          assert a[1..] + b == b;
        }
      }
    }
  }

  /** However the stream is split, the parser ends in the same state with the
      same fields, and the same unread bytes wait in order. */
  lemma {:induction false} ChunkIndependence<P>(feed: Feeder<P>, done: P -> bool, p: P, chunks: seq<seq<byte>>)
    ensures ConsumeChunks(feed, done, p, chunks) == Consume(feed, done, p, Concat(chunks))
    decreases |chunks|
  {
    if chunks == [] {
    } else {
      var (p', rest) := Consume(feed, done, p, chunks[0]);
      ConsumeSplit(feed, done, p, chunks[0], Concat(chunks[1..]));
      ChunkIndependence(feed, done, p', chunks[1..]);
    }
  }

  /** A consume call that does not finish takes every byte, which leaves the
      buffer empty and rewound: the whole capacity is free for the rest of a
      message of any length. */
  lemma {:induction false} UnfinishedConsumeRewinds<P>(feed: Feeder<P>, done: P -> bool, p: P, q: Queue)
    requires q.Valid() && !done(Consume(feed, done, p, q.contents).0)
    ensures Consume(feed, done, p, q.contents).1 == []
    ensures q.Take(|q.contents|) == Empty(q.capacity) && q.Take(|q.contents|).Room() == q.capacity
  {
    var rest := Consume(feed, done, p, q.contents).1;
    assert rest != [] ==> done(Consume(feed, done, p, q.contents).0);
  }

  /** An invariant tying the parser to the bytes fed so far carries over from
      single bytes to whole calls. */
  lemma {:induction false} ConsumeKeeps<P(!new)>(feed: Feeder<P>, done: P -> bool, inv: (P, seq<byte>) -> bool,
                                                 p: P, fed: seq<byte>, input: seq<byte>)
    requires inv(p, fed) && !done(p)
    requires forall q: P, t: seq<byte>, c: byte :: inv(q, t) && !done(q) ==> inv(feed(q, c), t + [c])
    ensures var (q, rest) := Consume(feed, done, p, input);
            inv(q, fed + input[..|input| - |rest|]) && (!done(q) ==> rest == [])
    decreases |input|
  {
    if input == [] {
      assert fed + input[..0] == fed;
    } else {
      var p' := feed(p, input[0]);
      assert inv(p', fed + [input[0]]);
      if done(p') {
        assert input[..1] == [input[0]];
      } else {
        ConsumeKeeps(feed, done, inv, p', fed + [input[0]], input[1..]);
        var (q, rest) := Consume(feed, done, p, input);
        assert fed + [input[0]] + input[1..][..|input| - 1 - |rest|] == fed + input[..|input| - |rest|];
      }
    }
  }

  /** After one consume call from `start`, `inv` holds of the parser and exactly
      the bytes taken; only a terminal state leaves bytes behind. */
  predicate Explained<P>(feed: Feeder<P>, done: P -> bool, inv: (P, seq<byte>) -> bool, start: P, input: seq<byte>) {
    var (q, rest) := Consume(feed, done, start, input);
    inv(q, input[..|input| - |rest|]) && (!done(q) ==> rest == [])
  }

  lemma {:induction false} ConsumeExplained<P(!new)>(feed: Feeder<P>, done: P -> bool, inv: (P, seq<byte>) -> bool,
                                  start: P, input: seq<byte>)
    requires inv(start, []) && !done(start)
    requires forall q: P, t: seq<byte>, c: byte :: inv(q, t) && !done(q) ==> inv(feed(q, c), t + [c])
    ensures Explained(feed, done, inv, start, input)
  {
    ConsumeKeeps(feed, done, inv, start, [], input);
    var (q, rest) := Consume(feed, done, start, input);
    assert [] + input[..|input| - |rest|] == input[..|input| - |rest|];
  }

  /** A fact that no byte undoes still holds after a call. */
  lemma ConsumeKeepsFact<P(!new)>(feed: Feeder<P>, done: P -> bool, fact: P -> bool, p: P, input: seq<byte>)
    requires fact(p) && !done(p) && forall q: P, c: byte :: fact(q) && !done(q) ==> fact(feed(q, c))
    ensures fact(Consume(feed, done, p, input).0)
  {
    ConsumeKeeps(feed, done, (q: P, t: seq<byte>) => fact(q), p, [], input);
  }

  /** A measure that every byte decreases bounds the length of a message. */
  lemma {:induction false} ConsumeBounded<P(!new)>(feed: Feeder<P>, done: P -> bool, measure: P -> nat,
                                                   p: P, input: seq<byte>)
    requires |input| >= measure(p) > 0
    requires forall q: P, c: byte :: measure(q) > 0 && !done(feed(q, c)) ==> 0 < measure(feed(q, c)) < measure(q)
    ensures var (q, rest) := Consume(feed, done, p, input);
            done(q) && |input| - |rest| <= measure(p)
    decreases |input|
  {
    var p' := feed(p, input[0]);
    if !done(p') {
      ConsumeBounded(feed, done, measure, p', input[1..]);
    }
  }
}
