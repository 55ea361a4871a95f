/** The method-selection greeting of src/parser/hello_parser.c (section 3 of RFC 1928). */
module HelloParser {
  import opened Bytes
  import opened LinearBuffer
  import opened Feeding

  datatype State = Version | Nmethods | Methods | Finished | UnsupportedVersion

  /** `methods` are the bytes handed to on_authentication_method so far. */
  datatype Hello = Hello(state: State, remaining: int, methods: seq<byte>)

  const INITIAL: Hello := Hello(Version, 0, [])

  predicate IsError(st: State) {
    st == UnsupportedVersion
  }

  predicate IsDone(st: State) {
    IsError(st) || st == Finished
  }

  predicate Done(p: Hello) {
    IsDone(p.state)
  }

  function Feed(p: Hello, b: byte): Hello {
    match p.state
    case Version => p.(state := if b == 5 then Nmethods else UnsupportedVersion)
    case Nmethods => p.(remaining := b, state := if b <= 0 then Finished else Methods)
    case Methods =>
      Hello(if p.remaining - 1 <= 0 then Finished else Methods, p.remaining - 1, p.methods + [b])
    case Finished => p
    case UnsupportedVersion => p
  }

  /** Bytes fed after the end never turn a rejected greeting into an accepted one or back. */
  lemma EndIsFinal(p: Hello, c: byte)
    requires Done(p)
    ensures Done(Feed(p, c)) && (IsError(p.state) ==> IsError(Feed(p, c).state))
    ensures p.state == Finished ==> Feed(p, c) == p
  {
  }

  function Encode(methods: seq<byte>): seq<byte>
    requires |methods| <= 255
  {
    [5, |methods|] + methods
  }

  predicate Explains(p: Hello, s: seq<byte>) {
    match p.state
    case Version => s == [] && p.methods == []
    case Nmethods => s == [5] && p.methods == []
    case Methods => |s| >= 2 && s[0] == 5 && s[2..] == p.methods && p.remaining == s[1] - |p.methods| > 0
    case Finished => |p.methods| <= 255 && s == Encode(p.methods)
    case UnsupportedVersion => |s| == 1 && s[0] != 5
  }

  lemma FeedExplains(p: Hello, s: seq<byte>, c: byte)
    requires Explains(p, s) && !Done(p)
    ensures Explains(Feed(p, c), s + [c])
  {
    var t := s + [c];
    if p.state == Methods {
      assert t[2..] == s[2..] + [c];
      assert t == [5, s[1]] + t[2..];
    }
  }

  lemma ParseExplained(input: seq<byte>)
    ensures Explained(Feed, Done, Explains, INITIAL, input)
  {
    forall q: Hello, t: seq<byte>, c: byte | Explains(q, t) && !Done(q) {
      FeedExplains(q, t, c);
    }
    ConsumeExplained(Feed, Done, Explains, INITIAL, input);
  }

  /** The parser accepts a list of methods exactly when the stream starts with
      its wire form; it reports each method once, in order, and stops there. */
  lemma {:induction false} ParsesExactlyTheEncoding(methods: seq<byte>, input: seq<byte>)
    requires |methods| <= 255
    ensures var (p, rest) := Consume(Feed, Done, INITIAL, input);
            && (p.state == Finished && p.methods == methods <==> Encode(methods) <= input)
            && (Encode(methods) <= input ==> rest == input[|Encode(methods)|..])
  {
    ParseExplained(input);
    var (p, rest) := Consume(Feed, Done, INITIAL, input);
    var s, w := input[..|input| - |rest|], Encode(methods);
    if w <= input {
      assert forall j :: 0 <= j < |w| ==> input[j] == w[j];
      assert input[0] == 5 && input[1] == |methods|;
      assert p.state == Finished && |s| == |w|;
      assert s == input[..|w|] == w;
      assert p.methods == s[2..] == w[2..] == methods;
    }
  }

  function Remaining(p: Hello): nat {
    match p.state
    case Version => 257
    case Nmethods => 256
    case Methods => if p.remaining > 1 then p.remaining else 1
    case _ => 0
  }

  /** No greeting is longer than 257 bytes, whatever its bytes. */
  lemma {:induction false} AtMost257Bytes(input: seq<byte>)
    requires |input| >= 257
    ensures var (p, rest) := Consume(Feed, Done, INITIAL, input);
            Done(p) && |input| - |rest| <= 257
  {
    ConsumeBounded(Feed, Done, Remaining, INITIAL, input);
  }

  class Parser {
    var state: State
    var remaining: int
    /** Calls made to on_authentication_method. */
    var methods: seq<byte>

    ghost function View(): Hello
      reads this
    {
      Hello(state, remaining, methods)
    }

    constructor ()
      ensures View() == INITIAL
    {
      state, remaining, methods := Version, 0, [];
    }

    method FeedByte(b: byte) returns (st: State)
      modifies this
      ensures View() == Feed(old(View()), b) && st == state
    {
      match state {
      case Version => state := if b == 5 then Nmethods else UnsupportedVersion;
      case Nmethods =>
        remaining, state := b, Methods;
        if remaining <= 0 {
          state := Finished;
        }
      case Methods =>
        methods := methods + [b];
        remaining := remaining - 1;
        if remaining <= 0 {
          state := Finished;
        }
      case Finished =>
      case UnsupportedVersion =>
      }
      st := state;
    }

    /** One turn of the consume loop: take a byte, feed it, and test for the end. */
    method FeedFrom(b: Buffer) returns (st: State, finished: bool, errored: bool)
      requires b.Valid() && b.CanRead()
      modifies this, b, b.data
      ensures b.Valid() && b.View() == old(b.View()).Take(1)
      ensures View() == Feed(old(View()), old(b.View()).contents[0]) && st == state
      ensures finished == Done(View()) && errored == IsError(state)
    {
      var byte := b.Read();
      st := FeedByte(byte);
      finished, errored := IsDone(st), IsError(st);
    }

    method ConsumeFrom(b: Buffer) returns (st: State, errored: bool, ghost taken: nat)
      requires b.Valid()
      modifies this, b, b.data
      ensures b.Valid()
      ensures Consume(Feed, Done, old(View()), old(b.View()).contents) == (View(), b.View().contents)
      ensures taken <= |old(b.View()).contents| && b.View() == old(b.View()).Take(taken)
      ensures st == state
      ensures errored <==> old(b.View()).contents != [] && IsError(state)
    {
      st, errored, taken := state, false, 0;
      var finished := false;
      ghost var q0, p0 := b.View(), View();
      while b.CanRead() && !finished
        invariant b.Valid() && taken <= |q0.contents| && b.View() == q0.Take(taken)
        invariant Progress(Feed, Done, p0, q0.contents, View(), taken, finished)
        invariant errored == (taken > 0 && IsError(state))
        invariant st == state
        decreases |q0.contents| - taken
      {
        TakeTwice(q0, taken, 1);
        ProgressStep(Feed, Done, p0, q0.contents, View(), taken);
        st, finished, errored := FeedFrom(b);
        taken := taken + 1;
      }
      ProgressEnd(Feed, Done, p0, q0.contents, View(), taken, finished);
    }
  }

  /** hello_marshall: the two-byte answer, or -1 without room for it. */
  method Marshal(b: Buffer, chosen: byte) returns (len: int)
    requires b.Valid()
    modifies b, b.data
    ensures b.Valid()
    ensures old(b.View()).Room() < 2 ==> len == -1 && b.View() == old(b.View())
    ensures old(b.View()).Room() >= 2 ==> len == 2 && b.View() == old(b.View()).Put([5, chosen])
  {
    if b.WriteCount() < 2 {
      return -1;
    }
    b.Fill([5, chosen]);
    len := 2;
  }
}
