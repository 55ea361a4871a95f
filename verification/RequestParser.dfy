/** The SOCKS request parser and the reply printer of src/parser/request_parser.c
    (sections 4 to 6 of RFC 1928). */
module RequestParser {
  import opened Bytes
  import opened LinearBuffer
  import opened Feeding

  datatype State =
    | Version | Command | Reserved | AddrType | FqdnLength | Addr | Port
    | Finished | Failed | UnsupportedVersion | UnsupportedAddrType

  const IPV4: byte := 1
  const DOMAIN: byte := 3
  const IPV6: byte := 4

  /** The members of the address union are kept apart; each request writes one. */
  datatype Request = Request(state: State, cmd: byte, atyp: byte, ipv4: seq<byte>, ipv6: seq<byte>, fqdn: Field,
                             port: seq<byte>, n: nat, i: nat)

  function Initialised(n: nat, i: nat): Request {
    Request(Version, 0, 0, [0, 0, 0, 0], seq(16, _ => 0), Zeroes(), [0, 0], n, i)
  }

  predicate IsError(st: State) {
    st == Failed || st == UnsupportedVersion || st == UnsupportedAddrType
  }

  predicate IsDone(st: State) {
    IsError(st) || st == Finished
  }

  predicate Done(p: Request) {
    IsDone(p.state)
  }

  function StoreIn(block: seq<byte>, i: nat, c: byte): (r: seq<byte>)
    ensures |r| == |block|
  {
    if i < |block| then block[i := c] else block
  }

  function FeedAddrType(p: Request, c: byte): Request {
    if c == IPV4 then p.(atyp := c, i := 0, n := 4, state := Addr)
    else if c == IPV6 then p.(atyp := c, i := 0, n := 16, state := Addr)
    else if c == DOMAIN then p.(atyp := c, state := FqdnLength)
    else p.(atyp := c, state := UnsupportedAddrType)
  }

  /** One address byte into the union member that the type selects. */
  function StoreAddr(p: Request, c: byte): Request {
    if p.atyp == IPV4 then p.(ipv4 := StoreIn(p.ipv4, p.i, c), i := p.i + 1)
    else if p.atyp == IPV6 then p.(ipv6 := StoreIn(p.ipv6, p.i, c), i := p.i + 1)
    else p.(fqdn := Store(p.fqdn, p.i, c), i := p.i + 1)
  }

  function FeedAddr(p: Request, c: byte): Request {
    var q := StoreAddr(p, c);
    if q.i >= q.n then q.(i := 0, n := 2, port := [0, 0], state := Port) else q
  }

  function FeedPort(p: Request, c: byte): Request {
    var q := p.(port := StoreIn(p.port, p.i, c), i := p.i + 1);
    if q.i >= q.n then q.(state := Finished) else q
  }

  function Feed(p: Request, c: byte): Request {
    match p.state
    case Version => p.(state := if c == 5 then Command else UnsupportedVersion)
    case Command => p.(cmd := c, state := Reserved)
    case Reserved => p.(state := AddrType)
    case AddrType => FeedAddrType(p, c)
    case FqdnLength => p.(i := 0, n := c, fqdn := if c > 0 then Store(p.fqdn, c - 1, 0) else p.fqdn, state := Addr)
    case Addr => FeedAddr(p, c)
    case Port => FeedPort(p, c)
    case _ => p
  }

  /** Bytes fed after the end never turn a rejected request into an accepted one or back. */
  lemma EndIsFinal(p: Request, c: byte)
    requires Done(p)
    ensures Done(Feed(p, c)) && (IsError(p.state) ==> IsError(Feed(p, c).state))
    ensures p.state == Finished ==> Feed(p, c) == p
  {
  }

  // ---------------------------------------------------------------------------
  // The wire form

  /** Where the address starts, and how many bytes the parser takes for it. */
  function AddrStart(atyp: byte): nat {
    if atyp == DOMAIN then 5 else 4
  }

  function AddrLength(s: seq<byte>): nat
    requires |s| >= 4 && (s[3] == DOMAIN ==> |s| >= 5)
  {
    if s[3] == IPV4 then 4 else if s[3] == IPV6 then 16 else if s[3] == DOMAIN && s[4] > 0 then s[4] else 1
  }

  predicate Supported(atyp: byte) {
    atyp == IPV4 || atyp == IPV6 || atyp == DOMAIN
  }

  /** `s` starts with a whole request of `k` bytes. */
  predicate CompleteAt(s: seq<byte>, k: nat) {
    && |s| >= 5 && s[0] == 5 && Supported(s[3])
    && k == AddrStart(s[3]) + AddrLength(s) + 2 <= |s|
  }

  /** The address the parser holds starts with `t`; a domain is zero after it. */
  predicate HoldsAddr(p: Request, t: seq<byte>) {
    if p.atyp == IPV4 then |p.ipv4| == 4 && |t| <= 4 && p.ipv4[..|t|] == t && Holds(p.fqdn, [])
    else if p.atyp == IPV6 then |p.ipv6| == 16 && |t| <= 16 && p.ipv6[..|t|] == t && Holds(p.fqdn, [])
    else Holds(p.fqdn, t)
  }

  predicate Blank(p: Request) {
    |p.ipv4| == 4 && |p.ipv6| == 16 && |p.port| == 2 && Holds(p.fqdn, [])
  }

  predicate HeaderOf(p: Request, s: seq<byte>) {
    |s| >= 4 && s[0] == 5 && s[1] == p.cmd && s[3] == p.atyp && Supported(p.atyp) && |p.port| == 2
  }

  /** `p` is the parser after exactly the bytes `s`. */
  predicate Explains(p: Request, s: seq<byte>) {
    match p.state
    case Version => s == [] && Blank(p)
    case Command => s == [5] && Blank(p)
    case Reserved => s == [5, p.cmd] && Blank(p)
    case AddrType => |s| == 3 && s[0] == 5 && s[1] == p.cmd && Blank(p)
    case FqdnLength => HeaderOf(p, s) && |s| == 4 && p.atyp == DOMAIN && Blank(p)
    case Addr =>
      && HeaderOf(p, s) && |s| == AddrStart(p.atyp) + p.i && p.i < AddrLength(s)
      && (if p.atyp == DOMAIN then p.n == s[4] else p.n == AddrLength(s)) && HoldsAddr(p, s[AddrStart(p.atyp)..])
    case Port =>
      && HeaderOf(p, s) && |s| >= 5 && p.n == 2 && p.i < 2 && |s| == AddrStart(p.atyp) + AddrLength(s) + p.i
      && HoldsAddr(p, s[AddrStart(p.atyp)..AddrStart(p.atyp) + AddrLength(s)])
      && p.port[..p.i] == s[AddrStart(p.atyp) + AddrLength(s)..]
    case Finished =>
      && HeaderOf(p, s) && |s| >= 5 && |s| == AddrStart(p.atyp) + AddrLength(s) + 2
      && HoldsAddr(p, s[AddrStart(p.atyp)..AddrStart(p.atyp) + AddrLength(s)])
      && p.port == s[AddrStart(p.atyp) + AddrLength(s)..]
    case Failed => false
    case UnsupportedVersion => |s| == 1 && s[0] != 5
    case UnsupportedAddrType => |s| == 4 && s[0] == 5 && !Supported(s[3])
  }

  lemma FeedHead(p: Request, s: seq<byte>, c: byte)
    requires p.state in {Version, Command, Reserved, AddrType, FqdnLength} && Explains(p, s)
    ensures Explains(Feed(p, c), s + [c])
  {
    var t := s + [c];
    if p.state == AddrType {
      assert t[4..] == [];
    } else if p.state == FqdnLength {
      assert t[5..] == [];
    }
  }

  lemma StoreAddrHolds(p: Request, t: seq<byte>, c: byte)
    requires Supported(p.atyp) && HoldsAddr(p, t) && p.i == |t|
    requires |t| < (if p.atyp == IPV4 then 4 else if p.atyp == IPV6 then 16 else FIELD_SIZE)
    ensures HoldsAddr(StoreAddr(p, c), t + [c])
  {
    if p.atyp == DOMAIN {
      StoreNext(p.fqdn, t, c);
    }
  }

  lemma FeedAddrExplains(p: Request, s: seq<byte>, c: byte)
    requires p.state == Addr && Explains(p, s)
    ensures Explains(Feed(p, c), s + [c])
  {
    var t, a := s + [c], AddrStart(p.atyp);
    StoreAddrHolds(p, s[a..], c);
    assert t[a..] == s[a..] + [c];
    assert AddrLength(t) == AddrLength(s);
    if p.i + 1 >= p.n {
      assert t[a..a + AddrLength(t)] == t[a..];
      assert t[a + AddrLength(t)..] == [];
    }
  }

  lemma FeedPortExplains(p: Request, s: seq<byte>, c: byte)
    requires p.state == Port && Explains(p, s)
    ensures Explains(Feed(p, c), s + [c])
  {
    var t, a, l := s + [c], AddrStart(p.atyp), AddrLength(s);
    assert AddrLength(t) == l;
    assert t[a..a + l] == s[a..a + l];
    assert t[a + l..] == s[a + l..] + [c];
    assert FeedPort(p, c).port[..p.i + 1] == p.port[..p.i] + [c];
  }

  lemma FeedExplains(p: Request, s: seq<byte>, c: byte)
    requires Explains(p, s) && !Done(p)
    ensures Explains(Feed(p, c), s + [c])
  {
    match p.state
    case Addr => FeedAddrExplains(p, s, c);
    case Port => FeedPortExplains(p, s, c);
    case _ => FeedHead(p, s, c);
  }

  lemma ParseExplained(n: nat, i: nat, input: seq<byte>)
    ensures Explained(Feed, Done, Explains, Initialised(n, i), input)
  {
    forall q: Request, t: seq<byte>, c: byte | Explains(q, t) && !Done(q) {
      FeedExplains(q, t, c);
    }
    ConsumeExplained(Feed, Done, Explains, Initialised(n, i), input);
  }

  lemma FinishedIsComplete(p: Request, s: seq<byte>, input: seq<byte>)
    requires Explains(p, s) && s <= input && p.state == Finished
    ensures CompleteAt(input, |s|)
  {
    assert forall j :: 0 <= j < |s| ==> s[j] == input[j];
  }

  lemma CompleteIsFinished(p: Request, s: seq<byte>, input: seq<byte>, k: nat)
    requires Explains(p, s) && s <= input && (!Done(p) ==> s == input) && CompleteAt(input, k)
    ensures p.state == Finished
  {
    assert forall j :: 0 <= j < |s| ==> s[j] == input[j];
  }

  /** `s` starts with a whole request that has no domain of length 0. */
  predicate ProperAt(s: seq<byte>, k: nat) {
    CompleteAt(s, k) && !ZeroLength(s)
  }

  /** The parser finishes exactly on streams that start with a whole request, and
      it takes exactly that request. It does so inside its memory exactly when no
      domain has length 0. */
  lemma {:induction false} FinishesExactly(n: nat, i: nat, input: seq<byte>)
    ensures var (p, rest) := Consume(Feed, Done, Initialised(n, i), input);
            && (p.state == Finished <==> exists k :: CompleteAt(input, k))
            && (p.state == Finished ==> CompleteAt(input, |input| - |rest|))
    ensures var p := Consume(Feed, Done, Initialised(n, i), input).0;
            p.state == Finished && !Underruns(Initialised(n, i), input) <==> exists k :: ProperAt(input, k)
  {
    FinishesSomehow(n, i, input);
    UnderrunsExactly(n, i, input);
    var (p, rest) := Consume(Feed, Done, Initialised(n, i), input);
    if p.state == Finished && !ZeroLength(input) {
      assert ProperAt(input, |input| - |rest|);
    }
  }

  lemma {:induction false} FinishesSomehow(n: nat, i: nat, input: seq<byte>)
    ensures var (p, rest) := Consume(Feed, Done, Initialised(n, i), input);
            && (p.state == Finished <==> exists k :: CompleteAt(input, k))
            && (p.state == Finished ==> CompleteAt(input, |input| - |rest|))
  {
    ParseExplained(n, i, input);
    var (p, rest) := Consume(Feed, Done, Initialised(n, i), input);
    var s := input[..|input| - |rest|];
    if p.state == Finished {
      FinishedIsComplete(p, s, input);
    }
    if k :| CompleteAt(input, k) {
      CompleteIsFinished(p, s, input, k);
    }
  }

  // ---------------------------------------------------------------------------
  // Accesses outside the domain field

  /** dstaddr_fqdn clears the byte before the last one: at index -1 for length 0. */
  predicate StoresBefore(p: Request, c: byte) {
    p.state == FqdnLength && c == 0
  }

  /** Some byte of the stream, up to the first terminal state, makes that store. */
  predicate Underruns(p: Request, input: seq<byte>)
    decreases |input|
  {
    input != [] &&
    (StoresBefore(p, input[0]) ||
     var p' := Feed(p, input[0]);
     !Done(p') && Underruns(p', input[1..]))
  }

  predicate ZeroLength(s: seq<byte>) {
    |s| >= 5 && s[0] == 5 && s[3] == DOMAIN && s[4] == 0
  }

  lemma {:induction false} NoUnderrunLater(p: Request, input: seq<byte>)
    requires p.state == Addr || p.state == Port
    ensures !Underruns(p, input)
    decreases |input|
  {
    if input != [] {
      var p' := Feed(p, input[0]);
      if !Done(p') {
        NoUnderrunLater(p', input[1..]);
      }
    }
  }

  /** With the bytes `s` behind it, the parser stores outside the field in what
      follows exactly when the length byte is still to come, and it is 0. */
  lemma {:induction false} UnderrunsFrom(p: Request, s: seq<byte>, input: seq<byte>)
    requires Explains(p, s) && !Done(p) && s <= input
    ensures Underruns(p, input[|s|..]) <==> |s| <= 4 && ZeroLength(input)
    decreases |input| - |s|
  {
    var rest := input[|s|..];
    if p.state == Addr || p.state == Port {
      NoUnderrunLater(p, rest);
    } else if rest == [] {
    } else {
      var c := rest[0];
      var t := s + [c];
      assert forall j :: 0 <= j < |s| ==> s[j] == input[j];
      FeedExplains(p, s, c);
      assert t == input[..|t|] && rest[1..] == input[|t|..];
      if StoresBefore(p, c) {
        assert input[4] == c;
      } else if !Done(Feed(p, c)) {
        UnderrunsFrom(Feed(p, c), t, input);
      }
    }
  }

  /** Whatever the stream and the stale counters, the parser stores before the
      domain field exactly for a request with a domain of length 0. */
  lemma UnderrunsExactly(n: nat, i: nat, input: seq<byte>)
    ensures Underruns(Initialised(n, i), input) <==> ZeroLength(input)
  {
    assert Explains(Initialised(n, i), []);
    assert input[0..] == input;
    UnderrunsFrom(Initialised(n, i), [], input);
  }

  /** The stream holds a domain of 255 bytes without NUL. */
  predicate FillsField(s: seq<byte>) {
    |s| >= 260 && s[3] == DOMAIN && s[4] == 255 && 0 !in s[5..260]
  }

  /** For every finished request: strlen in request_marshal leaves the field
      exactly for a domain of 255 bytes without NUL. */
  lemma {:induction false} UnterminatedExactly(n: nat, i: nat, input: seq<byte>)
    ensures var p := Consume(Feed, Done, Initialised(n, i), input).0;
            p.state == Finished ==> (!Terminated(p.fqdn) <==> FillsField(input))
  {
    ParseExplained(n, i, input);
    var (p, rest) := Consume(Feed, Done, Initialised(n, i), input);
    if p.state == Finished {
      FinishedField(p, input[..|input| - |rest|], input);
    }
  }

  lemma FinishedField(p: Request, s: seq<byte>, input: seq<byte>)
    requires Explains(p, s) && p.state == Finished && s <= input
    ensures !Terminated(p.fqdn) <==> FillsField(input)
  {
    assert forall j :: 0 <= j < |s| ==> s[j] == input[j];
    if p.atyp == DOMAIN {
      var name := s[5..5 + AddrLength(s)];
      FieldString(p.fqdn, name);
      if s[4] == 255 {
        assert name == input[5..260];
      }
    } else {
      FieldString(p.fqdn, []);
    }
  }

  /** A request with a domain of length 0 finishes all the same, on its eighth byte. */
  lemma {:induction false} ZeroLengthFinishes(n: nat, i: nat, input: seq<byte>)
    requires ZeroLength(input) && |input| >= 8
    ensures var (p, rest) := Consume(Feed, Done, Initialised(n, i), input);
            Underruns(Initialised(n, i), input) && p.state == Finished && |input| - |rest| == 8
  {
    UnderrunsExactly(n, i, input);
    FinishesSomehow(n, i, input);
    assert CompleteAt(input, 8);
  }

  /** Every name of 255 bytes without NUL leads to such a parser. */
  lemma {:induction false} LongNameFinishes(n: nat, i: nat, cmd: byte, name: seq<byte>, port: seq<byte>,
                                            input: seq<byte>)
    requires |name| == 255 && 0 !in name && |port| == 2 && input == [5, cmd, 0, DOMAIN, 255] + name + port
    ensures var p := Consume(Feed, Done, Initialised(n, i), input).0;
            p.state == Finished && p.atyp == DOMAIN && !Terminated(p.fqdn)
  {
    assert CompleteAt(input, 262) && input[5..260] == name;
    FinishesSomehow(n, i, input);
    UnterminatedExactly(n, i, input);
    ParseExplained(n, i, input);
    var (p, rest) := Consume(Feed, Done, Initialised(n, i), input);
    assert input[..|input| - |rest|][3] == input[3];
  }

  // ---------------------------------------------------------------------------
  // Requests, replies and the round trip

  /** The fields of a request or a reply: section 4 and section 6 of RFC 1928
      give them the same layout. */
  datatype Fields = Fields(code: byte, reserved: byte, atyp: byte, addr: seq<byte>, port: seq<byte>) {
    predicate Valid() {
      && Supported(atyp) && |port| == 2
      && (if atyp == IPV4 then |addr| == 4 else if atyp == IPV6 then |addr| == 16
          else 1 <= |addr| <= 254 && 0 !in addr)
    }
  }

  function Encode(f: Fields): seq<byte>
    requires f.Valid()
  {
    [5, f.code, f.reserved, f.atyp] + (if f.atyp == DOMAIN then [|f.addr|] else []) + f.addr + f.port
  }

  /** The address part that request_marshal prints for the parsed address. */
  function AddrBytes(p: Request): seq<byte> {
    if p.atyp == IPV4 then p.ipv4
    else if p.atyp == IPV6 then p.ipv6
    else if p.atyp == DOMAIN then [|CStr(p.fqdn)|] + CStr(p.fqdn)
    else []
  }

  function Reply(p: Request, status: byte): seq<byte> {
    [5, status, 0, p.atyp] + AddrBytes(p) + p.port
  }

  lemma EncodeLayout(f: Fields, rest: seq<byte>)
    requires f.Valid()
    ensures var input, a := Encode(f) + rest, AddrStart(f.atyp);
            && CompleteAt(input, |Encode(f)|) && AddrLength(input) == |f.addr|
            && input[1] == f.code && input[3] == f.atyp
            && input[a..a + |f.addr|] == f.addr && input[a + |f.addr|..|Encode(f)|] == f.port
  {
  }

  /** What a finished parser holds when the stream started with `f`. */
  lemma HoldsFields(p: Request, s: seq<byte>, f: Fields)
    requires f.Valid() && Explains(p, s) && p.state == Finished && s == Encode(f)
    ensures p.cmd == f.code && p.atyp == f.atyp && p.port == f.port && HoldsAddr(p, f.addr)
  {
    EncodeLayout(f, []);
    assert Encode(f) + [] == Encode(f);
    assert s[AddrStart(f.atyp) + |f.addr|..] == s[AddrStart(f.atyp) + |f.addr|..|s|];
  }

  lemma HeldAddrBytes(p: Request, addr: seq<byte>)
    requires Supported(p.atyp) && HoldsAddr(p, addr)
    requires if p.atyp == IPV4 then |addr| == 4 else if p.atyp == IPV6 then |addr| == 16
             else 0 !in addr && |addr| <= 254
    ensures AddrBytes(p) == (if p.atyp == DOMAIN then [|addr|] else []) + addr
  {
    if p.atyp == DOMAIN {
      FieldString(p.fqdn, addr);
    }
  }

  lemma {:induction false} ParsesRequest(n: nat, i: nat, f: Fields, rest: seq<byte>)
    requires f.Valid()
    ensures var (p, left) := Consume(Feed, Done, Initialised(n, i), Encode(f) + rest);
            && left == rest && p.state == Finished
            && p.cmd == f.code && p.atyp == f.atyp && p.port == f.port && HoldsAddr(p, f.addr)
  {
    var input := Encode(f) + rest;
    EncodeLayout(f, rest);
    FinishesExactly(n, i, input);
    ParseExplained(n, i, input);
    var (p, left) := Consume(Feed, Done, Initialised(n, i), input);
    var s := input[..|input| - |left|];
    assert |s| == |Encode(f)| && s == Encode(f);
    assert left == input[|s|..] == rest;
    HoldsFields(p, s, f);
  }

  lemma ReplyRepeats(p: Request, f: Fields, status: byte)
    requires f.Valid() && p.atyp == f.atyp && p.port == f.port && HoldsAddr(p, f.addr)
    ensures Reply(p, status) == Encode(f.(code := status, reserved := 0))
    ensures Reply(p, status)[3..] == Encode(f)[3..]
  {
    HeldAddrBytes(p, f.addr);
  }

  /** Every IPv4, IPv6 or NUL-free domain request is parsed completely, leaves
      what follows unread, and the reply printed from the parser repeats its
      ATYP, address and port bytes exactly. */
  lemma {:induction false} RequestRoundTrip(n: nat, i: nat, f: Fields, rest: seq<byte>, status: byte)
    requires f.Valid()
    ensures var (p, left) := Consume(Feed, Done, Initialised(n, i), Encode(f) + rest);
            && left == rest && p.state == Finished && p.cmd == f.code
            && Reply(p, status) == Encode(f.(code := status, reserved := 0))
            && Reply(p, status)[3..] == Encode(f)[3..]
  {
    ParsesRequest(n, i, f, rest);
    ReplyRepeats(Consume(Feed, Done, Initialised(n, i), Encode(f) + rest).0, f, status);
  }

  /** Parsing a printed reply recovers status, address and port. */
  lemma {:induction false} ReplyRoundTrip(n: nat, i: nat, f: Fields, rest: seq<byte>, status: byte)
    requires f.Valid()
    ensures var p := Consume(Feed, Done, Initialised(n, i), Encode(f) + rest).0;
            var q := Consume(Feed, Done, Initialised(n, i), Reply(p, status) + rest).0;
            && q.state == Finished && q.cmd == status && q.atyp == p.atyp && q.port == p.port
            && AddrBytes(q) == AddrBytes(p)
  {
    var g := f.(code := status, reserved := 0);
    ParsesRequest(n, i, f, rest);
    ParsesRequest(n, i, g, rest);
    var p := Consume(Feed, Done, Initialised(n, i), Encode(f) + rest).0;
    ReplyRepeats(p, f, status);
    HeldAddrBytes(p, f.addr);
    HeldAddrBytes(Consume(Feed, Done, Initialised(n, i), Encode(g) + rest).0, f.addr);
  }

  function Remaining(p: Request): nat {
    var here := if p.n > p.i then p.n - p.i else 1;
    match p.state
    case Version => 262
    case Command => 261
    case Reserved => 260
    case AddrType => 259
    case FqdnLength => 258
    case Addr => here + 2
    case Port => here
    case _ => 0
  }

  lemma FeedDecreases(p: Request, c: byte)
    requires Remaining(p) > 0 && !Done(Feed(p, c))
    ensures 0 < Remaining(Feed(p, c)) < Remaining(p)
  {
  }

  /** No request is longer than 262 bytes, whatever its bytes. */
  lemma {:induction false} AtMost262Bytes(n: nat, i: nat, input: seq<byte>)
    requires |input| >= 262
    ensures var (p, rest) := Consume(Feed, Done, Initialised(n, i), input);
            Done(p) && |input| - |rest| <= 262
  {
    forall q: Request, c: byte | Remaining(q) > 0 && !Done(Feed(q, c)) {
      FeedDecreases(q, c);
    }
    ConsumeBounded(Feed, Done, Remaining, Initialised(n, i), input);
  }

  // ---------------------------------------------------------------------------

  class Parser {
    var state: State
    var cmd: byte
    var atyp: byte
    var ipv4: seq<byte>
    var ipv6: seq<byte>
    var fqdn: Field
    var port: seq<byte>
    var n: nat
    var i: nat

    ghost function View(): Request
      reads this
    {
      Request(state, cmd, atyp, ipv4, ipv6, fqdn, port, n, i)
    }

    constructor ()
      ensures View() == Initialised(0, 0)
    {
      state, cmd, atyp, port, n, i := Version, 0, 0, [0, 0], 0, 0;
      ipv4, ipv6, fqdn := [0, 0, 0, 0], seq(16, _ => 0), Zeroes();
    }

    method Init()
      modifies this
      ensures View() == Initialised(old(n), old(i))
    {
      state, cmd, atyp, port := Version, 0, 0, [0, 0];
      ipv4, ipv6, fqdn := [0, 0, 0, 0], seq(16, _ => 0), Zeroes();
    }

    method RemainingSet(k: nat)
      modifies this`i, this`n
      ensures i == 0 && n == k
    {
      i, n := 0, k;
    }

    method FeedAddress(c: byte)
      modifies this
      ensures View() == FeedAddr(old(View()), c)
    {
      if atyp == IPV4 {
        ipv4 := StoreIn(ipv4, i, c);
      } else if atyp == IPV6 {
        ipv6 := StoreIn(ipv6, i, c);
      } else {
        fqdn := Store(fqdn, i, c);
      }
      i := i + 1;
      if i >= n {
        RemainingSet(2);
        port, state := [0, 0], Port;
      }
    }

    method FeedByte(c: byte) returns (st: State)
      modifies this
      ensures View() == Feed(old(View()), c) && st == state
    {
      match state {
      case Version => state := if c == 5 then Command else UnsupportedVersion;
      case Command => cmd, state := c, Reserved;
      case Reserved => state := AddrType;
      case AddrType =>
        atyp := c;
        if c == IPV4 {
          RemainingSet(4);
          state := Addr;
        } else if c == IPV6 {
          RemainingSet(16);
          state := Addr;
        } else {
          state := if c == DOMAIN then FqdnLength else UnsupportedAddrType;
        }
      case FqdnLength =>
        RemainingSet(c);
        if n > 0 {
          fqdn := Store(fqdn, n - 1, 0);
        }
        state := Addr;
      case Addr => FeedAddress(c);
      case Port =>
        port, i := StoreIn(port, i, c), i + 1;
        if i >= n {
          state := Finished;
        }
      case _ =>
      }
      st := state;
    }

    /** One turn of the consume loop: take a byte, feed it, and test for the end. */
    method FeedFrom(b: Buffer) returns (st: State, finished: bool, errored: bool)
      requires b.Valid() && b.CanRead()
      modifies this, b, b.data
      ensures b.Valid() && b.View() == old(b.View()).Take(1)
      ensures View() == Feed(old(View()), old(b.View()).contents[0]) && st == state
      ensures finished == Done(View()) && errored == IsError(state)
    {
      var byte := b.Read();
      st := FeedByte(byte);
      finished, errored := IsDone(st), IsError(st);
    }

    method ConsumeFrom(b: Buffer) returns (st: State, errored: bool, ghost taken: nat)
      requires b.Valid()
      modifies this, b, b.data
      ensures b.Valid()
      ensures Consume(Feed, Done, old(View()), old(b.View()).contents) == (View(), b.View().contents)
      ensures taken <= |old(b.View()).contents| && b.View() == old(b.View()).Take(taken)
      ensures st == state
      ensures errored <==> old(b.View()).contents != [] && IsError(state)
    {
      st, errored, taken := state, false, 0;
      var finished := false;
      ghost var q0, p0 := b.View(), View();
      while b.CanRead() && !finished
        invariant b.Valid() && taken <= |q0.contents| && b.View() == q0.Take(taken)
        invariant Progress(Feed, Done, p0, q0.contents, View(), taken, finished)
        invariant errored == (taken > 0 && IsError(state))
        invariant st == state
        decreases |q0.contents| - taken
      {
        TakeTwice(q0, taken, 1);
        ProgressStep(Feed, Done, p0, q0.contents, View(), taken);
        st, finished, errored := FeedFrom(b);
        taken := taken + 1;
      }
      ProgressEnd(Feed, Done, p0, q0.contents, View(), taken, finished);
    }

    /** request_marshal with the parser's own address and port: the whole reply
        or, when it does not fit, nothing. */
    method Marshal(b: Buffer, status: byte) returns (len: int)
      requires b.Valid() && |ipv4| == 4 && |ipv6| == 16 && |port| == 2 && (atyp == DOMAIN ==> Terminated(fqdn))
      modifies b, b.data
      ensures b.Valid()
      ensures var reply := Reply(View(), status);
              if old(b.View()).Room() < |reply| then len == -1 && b.View() == old(b.View())
              else len == |reply| && b.View() == old(b.View()).Put(reply)
    {
      len := 6;
      var aux: seq<byte> := [];
      if atyp == IPV4 {
        aux := ipv4;
      } else if atyp == IPV6 {
        aux := ipv6;
      } else if atyp == DOMAIN {
        aux := [|CStr(fqdn)|] + CStr(fqdn);
      }
      len := len + |aux|;
      if b.WriteCount() < len {
        return -1;
      }
      b.Fill([5, status, 0, atyp] + aux + port);
    }
  }
}
