/** The username/password sub-negotiation of src/parser/auth_parser.c
    (section 2 of RFC 1929). */
module AuthParser {
  import opened Bytes
  import opened LinearBuffer
  import opened Feeding

  datatype State = Version | Ulen | Uname | Plen | Passwd | Finished | Failed | UnsupportedVersion

  datatype Auth = Auth(state: State, n: nat, i: nat, ulen: byte, uname: Field, plen: byte, passwd: Field)

  const INITIAL: Auth := Auth(Version, 0, 0, 0, Zeroes(), 0, Zeroes())

  /** The states in which auth_is_done also raises its error flag. */
  predicate IsError(st: State) {
    st == Failed || st == UnsupportedVersion
  }

  predicate IsDone(st: State) {
    IsError(st) || st == Finished
  }

  predicate Done(p: Auth) {
    IsDone(p.state)
  }

  function Feed(p: Auth, c: byte): Auth {
    match p.state
    case Version => p.(state := if c == 1 then Ulen else UnsupportedVersion)
    case Ulen => if c == 0 then p.(state := Failed) else p.(i := 0, n := c, ulen := c, state := Uname)
    case Uname =>
      var q := p.(uname := Store(p.uname, p.i, c), i := p.i + 1);
      if q.i >= q.n then q.(uname := Store(q.uname, q.i, 0), state := Plen) else q
    case Plen => if c == 0 then p.(state := Failed) else p.(i := 0, n := c, plen := c, state := Passwd)
    case Passwd =>
      var q := p.(passwd := Store(p.passwd, p.i, c), i := p.i + 1);
      if q.i >= q.n then q.(passwd := Store(q.passwd, q.i, 0), state := Finished) else q
    case Finished => p.(state := Failed)
    case Failed => p
    case UnsupportedVersion => p.(state := Failed)
  }

  /** Bytes fed after the end never turn a rejected request into an accepted one, and they
      spoil an accepted one. */
  lemma EndIsFinal(p: Auth, c: byte)
    requires Done(p)
    ensures Done(Feed(p, c)) && (IsError(p.state) ==> IsError(Feed(p, c).state))
    ensures p.state == Finished ==> IsError(Feed(p, c).state)
  {
  }

  /** The wire form of the request in section 2 of RFC 1929. */
  function Encode(uname: seq<byte>, passwd: seq<byte>): seq<byte>
    requires 1 <= |uname| <= 255 && 1 <= |passwd| <= 255
  {
    [1, |uname|] + uname + [|passwd|] + passwd
  }

  /** `p` is the parser after exactly the bytes `s`, none of them fed after the end. */
  predicate Explains(p: Auth, s: seq<byte>) {
    match p.state
    case Version => s == [] && p.ulen == 0 == p.plen && Holds(p.uname, []) && Holds(p.passwd, [])
    case Ulen => s == [1] && p.ulen == 0 == p.plen && Holds(p.uname, []) && Holds(p.passwd, [])
    case Uname =>
      && |s| == 2 + p.i && s[0] == 1 && s[1] == p.n == p.ulen && p.i < p.n && p.plen == 0
      && Holds(p.uname, s[2..]) && Holds(p.passwd, [])
    case Plen =>
      && |s| == 2 + p.ulen && s[0] == 1 && s[1] == p.ulen > 0 && p.plen == 0
      && Holds(p.uname, s[2..]) && Holds(p.passwd, [])
    case Passwd =>
      && |s| == 3 + p.ulen + p.i && s[0] == 1 && s[1] == p.ulen > 0 && s[2 + p.ulen] == p.n == p.plen && p.i < p.n
      && Holds(p.uname, s[2..2 + p.ulen]) && Holds(p.passwd, s[3 + p.ulen..])
    case Finished =>
      && |s| == 3 + p.ulen + p.plen && s[0] == 1 && s[1] == p.ulen > 0 && s[2 + p.ulen] == p.plen > 0
      && Holds(p.uname, s[2..2 + p.ulen]) && Holds(p.passwd, s[3 + p.ulen..])
    case Failed =>
      && |s| >= 2 && s[0] == 1 && s[1] == p.ulen && p.plen == 0
      && (if p.ulen == 0 then |s| == 2 else |s| - 3 == p.ulen && s[|s| - 1] == 0)
    case UnsupportedVersion => |s| == 1 && s[0] != 1
  }

  lemma FeedUname(p: Auth, s: seq<byte>, c: byte)
    requires p.state == Uname && Explains(p, s)
    ensures Explains(Feed(p, c), s + [c])
  {
    var t := s + [c];
    StoreNext(p.uname, s[2..], c);
    assert t[2..] == s[2..] + [c];
    StoreEnd(Store(p.uname, p.i, c), t[2..]);
  }

  lemma FeedPasswd(p: Auth, s: seq<byte>, c: byte)
    requires p.state == Passwd && Explains(p, s)
    ensures Explains(Feed(p, c), s + [c])
  {
    var t := s + [c];
    StoreNext(p.passwd, s[3 + p.ulen..], c);
    assert t[3 + p.ulen..] == s[3 + p.ulen..] + [c];
    assert t[2..2 + p.ulen] == s[2..2 + p.ulen];
    StoreEnd(Store(p.passwd, p.i, c), t[3 + p.ulen..]);
  }

  lemma FeedLengths(p: Auth, s: seq<byte>, c: byte)
    requires p.state in {Version, Ulen, Plen} && Explains(p, s)
    ensures Explains(Feed(p, c), s + [c])
  {
    if p.state == Plen {
      var t := s + [c];
      assert t[2..2 + p.ulen] == s[2..];
      assert t[3 + p.ulen..] == [];
    }
  }

  lemma FeedExplains(p: Auth, s: seq<byte>, c: byte)
    requires Explains(p, s) && !Done(p)
    ensures Explains(Feed(p, c), s + [c])
  {
    match p.state
    case Uname => FeedUname(p, s, c);
    case Passwd => FeedPasswd(p, s, c);
    case _ => FeedLengths(p, s, c);
  }

  lemma ParseExplained(input: seq<byte>)
    ensures Explained(Feed, Done, Explains, INITIAL, input)
  {
    forall q: Auth, t: seq<byte>, c: byte | Explains(q, t) && !Done(q) {
      FeedExplains(q, t, c);
    }
    ConsumeExplained(Feed, Done, Explains, INITIAL, input);
  }

  /** Whatever follows a request stays unread. */
  lemma {:induction false} ParsesEncoding(uname: seq<byte>, passwd: seq<byte>, rest: seq<byte>)
    requires 1 <= |uname| <= 255 && 1 <= |passwd| <= 255
    ensures var (p, left) := Consume(Feed, Done, INITIAL, Encode(uname, passwd) + rest);
            && left == rest && p.state == Finished && p.ulen == |uname| && p.plen == |passwd|
            && Holds(p.uname, uname) && Holds(p.passwd, passwd)
  {
    var w := Encode(uname, passwd);
    var input := w + rest;
    var (p, left) := Consume(Feed, Done, INITIAL, input);
    var s := input[..|input| - |left|];
    ParseExplained(input);
    assert w[2..2 + |uname|] == uname && w[3 + |uname|..] == passwd && w[2 + |uname|] == |passwd|;
    assert input[0] == 1 && input[1] == |uname| && input[2 + |uname|] == |passwd|;
    assert forall k :: 0 <= k < |s| ==> s[k] == input[k];
    assert |s| == |w|;
    assert s == input[..|w|] == w;
    assert left == input[|w|..] == rest;
  }

  lemma FinishedText(p: Auth, s: seq<byte>)
    requires Explains(p, s) && p.state == Finished
    ensures p.ulen > 0 && p.plen > 0 && s == Encode(p.uname[..p.ulen], p.passwd[..p.plen])
  {
    assert s == [s[0], s[1]] + s[2..2 + p.ulen] + [s[2 + p.ulen]] + s[3 + p.ulen..];
  }

  /** An accepted stream starts with the wire form of what the parser holds. */
  lemma {:induction false} FinishedIsEncoding(input: seq<byte>)
    ensures var (p, rest) := Consume(Feed, Done, INITIAL, input);
            p.state == Finished ==>
              p.ulen > 0 && p.plen > 0 && input == Encode(p.uname[..p.ulen], p.passwd[..p.plen]) + rest
  {
    ParseExplained(input);
    var (p, rest) := Consume(Feed, Done, INITIAL, input);
    if p.state == Finished {
      FinishedText(p, input[..|input| - |rest|]);
    }
  }

  /** The parser accepts a name and a password exactly when the stream starts
      with their wire form. */
  lemma {:induction false} ParsesExactlyTheEncoding(uname: seq<byte>, passwd: seq<byte>, input: seq<byte>)
    requires 1 <= |uname| <= 255 && 1 <= |passwd| <= 255
    ensures var p := Consume(Feed, Done, INITIAL, input).0;
            p.state == Finished && p.uname[..p.ulen] == uname && p.passwd[..p.plen] == passwd
            <==> Encode(uname, passwd) <= input
  {
    var w := Encode(uname, passwd);
    FinishedIsEncoding(input);
    if w <= input {
      assert input == w + input[|w|..];
      ParsesEncoding(uname, passwd, input[|w|..]);
    }
  }

  // ---------------------------------------------------------------------------
  // Fields of 255 bytes

  /** The terminator of a complete field of 255 bytes was stored past its end. */
  predicate Overran(p: Auth) {
    || (p.ulen == 255 && p.state in {Plen, Passwd, Finished, Failed})
    || (p.plen == 255 && p.state == Finished)
  }

  /** The stream contains a name or a password of 255 bytes up to its last byte. */
  predicate FillsField(s: seq<byte>) {
    |s| >= 2 && s[0] == 1 &&
    var u: nat := s[1];
    (u == 255 && |s| >= 2 + u) || (u > 0 && |s| >= 3 + u + 255 && s[2 + u] == 255)
  }

  /** Whatever the stream, a store leaves its field exactly for such a stream. */
  lemma {:induction false} OverrunsExactly(input: seq<byte>)
    ensures Overran(Consume(Feed, Done, INITIAL, input).0) <==> FillsField(input)
  {
    ParseExplained(input);
    var (p, rest) := Consume(Feed, Done, INITIAL, input);
    OverranExplained(p, input[..|input| - |rest|], input);
  }

  lemma OverranExplained(p: Auth, s: seq<byte>, input: seq<byte>)
    requires Explains(p, s) && s <= input && (!Done(p) ==> s == input)
    ensures Overran(p) <==> FillsField(input)
  {
    assert forall k :: 0 <= k < |s| ==> s[k] == input[k];
  }

  lemma OverranStays(p: Auth, input: seq<byte>)
    requires Overran(p) && !Done(p)
    ensures Overran(Consume(Feed, Done, p, input).0)
  {
    ConsumeKeepsFact(Feed, Done, Overran, p, input);
  }

  function Remaining(p: Auth): nat {
    var here := if p.n > p.i then p.n - p.i else 1;
    match p.state
    case Version => 513
    case Ulen => 512
    case Uname => here + 256
    case Plen => 256
    case Passwd => here
    case _ => 0
  }

  /** No message is longer than 513 bytes, whatever its bytes. */
  lemma {:induction false} AtMost513Bytes(input: seq<byte>)
    requires |input| >= 513
    ensures var (p, rest) := Consume(Feed, Done, INITIAL, input);
            Done(p) && |input| - |rest| <= 513
  {
    ConsumeBounded(Feed, Done, Remaining, INITIAL, input);
  }

  // ---------------------------------------------------------------------------

  class Parser {
    var state: State
    var n: nat
    var i: nat
    var ulen: byte
    var uname: Field
    var plen: byte
    var passwd: Field

    ghost function View(): Auth
      reads this
    {
      Auth(state, n, i, ulen, uname, plen, passwd)
    }

    constructor ()
      ensures View() == INITIAL
    {
      state, n, i := Version, 0, 0;
      ulen, plen, uname, passwd := 0, 0, Zeroes(), Zeroes();
    }

    method Init()
      modifies this
      ensures View() == INITIAL
    {
      state := Version;
      ulen, plen, uname, passwd := 0, 0, Zeroes(), Zeroes();
      n, i := 0, 0;
    }

    method RemainingSet(k: nat)
      modifies this`i, this`n
      ensures i == 0 && n == k
    {
      i, n := 0, k;
    }

    method FeedByte(c: byte) returns (st: State)
      modifies this
      ensures View() == Feed(old(View()), c) && st == state
    {
      match state {
      case Version => state := if c == 1 then Ulen else UnsupportedVersion;
      case Ulen =>
        if c == 0 {
          state := Failed;
        } else {
          RemainingSet(c);
          ulen := c;
          state := Uname;
        }
      case Uname =>
        uname := Store(uname, i, c);
        i := i + 1;
        if i >= n {
          uname := Store(uname, i, 0);
          state := Plen;
        }
      case Plen =>
        if c == 0 {
          state := Failed;
        } else {
          RemainingSet(c);
          plen := c;
          state := Passwd;
        }
      case Passwd =>
        passwd := Store(passwd, i, c);
        i := i + 1;
        if i >= n {
          passwd := Store(passwd, i, 0);
          state := Finished;
        }
      case Finished => state := Failed;
      case Failed => state := Failed;
      case UnsupportedVersion => state := Failed;
      }
      st := state;
    }

    /** One turn of the consume loop: take a byte, feed it, and test for the end. */
    method FeedFrom(b: Buffer) returns (st: State, finished: bool, errored: bool)
      requires b.Valid() && b.CanRead()
      modifies this, b, b.data
      ensures b.Valid() && b.View() == old(b.View()).Take(1)
      ensures View() == Feed(old(View()), old(b.View()).contents[0]) && st == state
      ensures finished == Done(View()) && errored == IsError(state)
    {
      var byte := b.Read();
      st := FeedByte(byte);
      finished, errored := IsDone(st), IsError(st);
    }

    method ConsumeFrom(b: Buffer) returns (st: State, errored: bool, ghost taken: nat)
      requires b.Valid()
      modifies this, b, b.data
      ensures b.Valid()
      ensures Consume(Feed, Done, old(View()), old(b.View()).contents) == (View(), b.View().contents)
      ensures taken <= |old(b.View()).contents| && b.View() == old(b.View()).Take(taken)
      ensures st == state
      ensures errored <==> old(b.View()).contents != [] && IsError(state)
    {
      st, errored, taken := state, false, 0;
      var finished := false;
      ghost var q0, p0 := b.View(), View();
      while b.CanRead() && !finished
        invariant b.Valid() && taken <= |q0.contents| && b.View() == q0.Take(taken)
        invariant Progress(Feed, Done, p0, q0.contents, View(), taken, finished)
        invariant errored == (taken > 0 && IsError(state))
        invariant st == state
        decreases |q0.contents| - taken
      {
        TakeTwice(q0, taken, 1);
        ProgressStep(Feed, Done, p0, q0.contents, View(), taken);
        st, finished, errored := FeedFrom(b);
        taken := taken + 1;
      }
      ProgressEnd(Feed, Done, p0, q0.contents, View(), taken, finished);
    }
  }

  /** auth_marshal: the two-byte answer, or -1 without room for it. */
  method Marshal(b: Buffer, status: byte) returns (len: int)
    requires b.Valid()
    modifies b, b.data
    ensures b.Valid()
    ensures old(b.View()).Room() < 2 ==> len == -1 && b.View() == old(b.View())
    ensures old(b.View()).Room() >= 2 ==> len == 2 && b.View() == old(b.View()).Put([1, status])
  {
    if b.WriteCount() < 2 {
      return -1;
    }
    b.Fill([1, status]);
    len := 2;
  }
}
