/** The command parser of the prawtos admin protocol, src/parser/prawtos_parser.c. */
module PrawtosParser {
  import opened Bytes
  import opened LinearBuffer
  import opened Feeding

  datatype State =
    | Type | CmdGet | CmdUser | CmdSniff | Admin | Ulen | Uname | Plen | Passwd
    | Finished | Failed | UnsupportedType | UnsupportedCmd | UnsupportedAdmin

  datatype Prawtos = Prawtos(state: State, kind: byte, getCmd: byte, userCmd: byte, admin: byte,
                             ulen: byte, uname: Field, plen: byte, passwd: Field, n: nat, i: nat)

  const GET: byte := 0
  const USER: byte := 1
  const SNIFF: byte := 2
  const QUIT: byte := 3

  const CREATE: byte := 0
  const DELETE: byte := 1
  const EDIT: byte := 2

  /** prawtos_parser_init; the type byte and the counters keep their old values. */
  function Initialised(p: Prawtos): Prawtos {
    Prawtos(Type, p.kind, 0, 0, 0, 0, Zeroes(), 0, Zeroes(), p.n, p.i)
  }

  predicate Fresh(p: Prawtos) {
    p == Initialised(p)
  }

  predicate IsError(st: State) {
    st == Failed || st == UnsupportedType || st == UnsupportedCmd || st == UnsupportedAdmin
  }

  predicate IsDone(st: State) {
    IsError(st) || st == Finished
  }

  predicate Done(p: Prawtos) {
    IsDone(p.state)
  }

  function FeedType(p: Prawtos, c: byte): Prawtos {
    p.(kind := c,
       state := if c == GET then CmdGet else if c == USER then CmdUser else if c == SNIFF then CmdSniff
                else if c == QUIT then Finished else UnsupportedType)
  }

  function FeedUname(p: Prawtos, c: byte): Prawtos {
    var q := p.(uname := Store(p.uname, p.i, c), i := p.i + 1);
    if q.i >= q.n then
      q.(uname := Store(q.uname, q.i, 0), state := if q.userCmd == DELETE then Finished else Plen)
    else q
  }

  function FeedPasswd(p: Prawtos, c: byte): Prawtos {
    var q := p.(passwd := Store(p.passwd, p.i, c), i := p.i + 1);
    if q.i >= q.n then q.(passwd := Store(q.passwd, q.i, 0), state := Finished) else q
  }

  function Feed(p: Prawtos, c: byte): Prawtos {
    match p.state
    case Type => FeedType(p, c)
    case CmdGet => if c >= 4 then p.(state := UnsupportedCmd) else p.(getCmd := c, state := Finished)
    case CmdUser =>
      p.(userCmd := c,
         state := if c == CREATE then Admin else if c == DELETE || c == EDIT then Ulen else UnsupportedCmd)
    case CmdSniff => if c >= 2 then p.(state := UnsupportedCmd) else p.(getCmd := c, state := Finished)
    case Admin => p.(admin := c, state := if c <= 1 then Ulen else UnsupportedAdmin)
    case Ulen => if c == 0 then p.(state := Failed) else p.(i := 0, n := c, ulen := c, state := Uname)
    case Uname => FeedUname(p, c)
    case Plen => if c == 0 then p.(state := Failed) else p.(i := 0, n := c, plen := c, state := Passwd)
    case Passwd => FeedPasswd(p, c)
    case UnsupportedAdmin => p.(state := Failed)
    case _ => p
  }

  /** Bytes fed after the end never turn a rejected command into an accepted one or back. */
  lemma EndIsFinal(p: Prawtos, c: byte)
    requires Done(p)
    ensures Done(Feed(p, c)) && (IsError(p.state) ==> IsError(Feed(p, c).state))
    ensures p.state == Finished ==> Feed(p, c) == p
  {
  }

  // ---------------------------------------------------------------------------
  // Messages and their wire form

  datatype Message =
    | Get(cmd: byte)
    | User(cmd: byte, admin: byte, name: seq<byte>, passwd: seq<byte>)
    | Sniff(cmd: byte)
    | Quit
  {
    predicate Valid() {
      match this
      case Get(cmd) => cmd < 4
      case User(cmd, admin, name, passwd) =>
        && cmd <= 2 && (if cmd == CREATE then admin <= 1 else admin == 0) && 1 <= |name| <= 255
        && (if cmd == DELETE then passwd == [] else 1 <= |passwd| <= 255)
      case Sniff(cmd) => cmd < 2
      case Quit => true
    }
  }

  function Header(cmd: byte, admin: byte): seq<byte> {
    if cmd == CREATE then [USER, cmd, admin] else [USER, cmd]
  }

  function Encode(m: Message): seq<byte>
    requires m.Valid()
  {
    match m
    case Get(cmd) => [GET, cmd]
    case User(cmd, admin, name, passwd) =>
      Header(cmd, admin) + [|name|] + name + if cmd == DELETE then [] else [|passwd|] + passwd
    case Sniff(cmd) => [SNIFF, cmd]
    case Quit => [QUIT]
  }

  /** The message a finished parser holds. */
  function Decode(p: Prawtos): Message {
    if p.kind == GET then Get(p.getCmd)
    else if p.kind == USER then
      User(p.userCmd, p.admin, p.uname[..p.ulen], if p.userCmd == DELETE then [] else p.passwd[..p.plen])
    else if p.kind == SNIFF then Sniff(p.getCmd)
    else Quit
  }

  // ---------------------------------------------------------------------------
  // What the parser holds determines what it was fed

  predicate ZeroFrom(block: Field, k: nat) {
    forall j :: k <= j < FIELD_SIZE ==> block[j] == 0
  }

  predicate NoNames(p: Prawtos) {
    p.ulen == 0 && p.plen == 0 && ZeroFrom(p.uname, 0) && ZeroFrom(p.passwd, 0)
  }

  predicate NoUser(p: Prawtos) {
    p.userCmd == 0 && p.admin == 0 && NoNames(p)
  }

  predicate UserHeader(p: Prawtos) {
    p.kind == USER && p.getCmd == 0 && p.userCmd <= 2 && (if p.userCmd == CREATE then p.admin <= 1 else p.admin == 0)
  }

  /** The fields that belong to each state. */
  predicate WellFormed(p: Prawtos) {
    match p.state
    case Type => NoUser(p) && p.getCmd == 0
    case CmdGet => NoUser(p) && p.getCmd == 0 && p.kind == GET
    case CmdUser => NoUser(p) && p.getCmd == 0 && p.kind == USER
    case CmdSniff => NoUser(p) && p.getCmd == 0 && p.kind == SNIFF
    case Admin => NoUser(p) && p.getCmd == 0 && p.kind == USER
    case Ulen => UserHeader(p) && NoNames(p)
    case Uname =>
      UserHeader(p) && p.i < p.n && p.n == p.ulen && p.plen == 0 && ZeroFrom(p.uname, p.i) && ZeroFrom(p.passwd, 0)
    case Plen =>
      UserHeader(p) && p.userCmd != DELETE && p.ulen > 0 && p.plen == 0
      && ZeroFrom(p.uname, p.ulen) && ZeroFrom(p.passwd, 0)
    case Passwd =>
      UserHeader(p) && p.userCmd != DELETE && p.ulen > 0 && p.i < p.n && p.n == p.plen
      && ZeroFrom(p.uname, p.ulen) && ZeroFrom(p.passwd, p.i)
    case Finished =>
      if p.kind == USER then
        UserHeader(p) && p.ulen > 0 && (p.userCmd == DELETE <==> p.plen == 0)
        && ZeroFrom(p.uname, p.ulen) && ZeroFrom(p.passwd, p.plen)
      else
        NoUser(p) && p.kind <= QUIT && p.getCmd < (if p.kind == GET then 4 else if p.kind == SNIFF then 2 else 1)
    case Failed =>
      UserHeader(p) && p.plen == 0 && ZeroFrom(p.uname, p.ulen) && ZeroFrom(p.passwd, 0)
      && (p.ulen > 0 ==> p.userCmd != DELETE)
    case UnsupportedType => NoUser(p) && p.getCmd == 0 && p.kind > QUIT
    case UnsupportedCmd =>
      p.kind < QUIT && p.getCmd == 0 && p.admin == 0 && NoNames(p)
      && (if p.kind == USER then p.userCmd > 2 else p.userCmd == 0)
    case UnsupportedAdmin => NoNames(p) && p.getCmd == 0 && p.kind == USER && p.userCmd == CREATE && p.admin > 1
  }

  /** The bytes behind a state; a refused GET or SNIFF command is the one byte not kept. */
  function Echo(p: Prawtos): seq<byte>
    requires WellFormed(p)
  {
    match p.state
    case Type => []
    case CmdGet => [p.kind]
    case CmdUser => [p.kind]
    case CmdSniff => [p.kind]
    case Admin => [p.kind, p.userCmd]
    case Ulen => Header(p.userCmd, p.admin)
    case Uname => Header(p.userCmd, p.admin) + [p.ulen] + p.uname[..p.i]
    case Plen => Header(p.userCmd, p.admin) + [p.ulen] + p.uname[..p.ulen]
    case Passwd => Header(p.userCmd, p.admin) + [p.ulen] + p.uname[..p.ulen] + ([p.plen] + p.passwd[..p.i])
    case Finished => Encode(Decode(p))
    case Failed =>
      Header(p.userCmd, p.admin) + if p.ulen == 0 then [0] else [p.ulen] + p.uname[..p.ulen] + [0]
    case UnsupportedType => [p.kind]
    case UnsupportedCmd => [p.kind, p.userCmd]
    case UnsupportedAdmin => [p.kind, p.userCmd, p.admin]
  }

  predicate Refused(p: Prawtos) {
    p.state == UnsupportedCmd && p.kind != USER
  }

  predicate Explains(p: Prawtos, s: seq<byte>) {
    WellFormed(p) &&
    if Refused(p) then |s| == 2 && s[0] == p.kind && s[1] >= (if p.kind == GET then 4 else 2) else s == Echo(p)
  }

  lemma FeedHead(p: Prawtos, s: seq<byte>, c: byte)
    requires p.state in {Type, CmdGet, CmdUser, CmdSniff, Admin, Ulen} && Explains(p, s)
    ensures Explains(Feed(p, c), s + [c])
  {
  }

  lemma FeedUnameExplains(p: Prawtos, s: seq<byte>, c: byte)
    requires p.state == Uname && Explains(p, s)
    ensures Explains(Feed(p, c), s + [c])
  {
    var q := FeedUname(p, c);
    assert q.uname[..p.i + 1] == p.uname[..p.i] + [c];
  }

  lemma FeedPlenExplains(p: Prawtos, s: seq<byte>, c: byte)
    requires p.state == Plen && Explains(p, s)
    ensures Explains(Feed(p, c), s + [c])
  {
  }

  lemma FeedPasswdExplains(p: Prawtos, s: seq<byte>, c: byte)
    requires p.state == Passwd && Explains(p, s)
    ensures Explains(Feed(p, c), s + [c])
  {
    var q := FeedPasswd(p, c);
    assert q.passwd[..p.i + 1] == p.passwd[..p.i] + [c];
    assert [p.plen] + q.passwd[..p.i + 1] == ([p.plen] + p.passwd[..p.i]) + [c];
  }

  lemma FeedExplains(p: Prawtos, s: seq<byte>, c: byte)
    requires Explains(p, s) && !Done(p)
    ensures Explains(Feed(p, c), s + [c])
  {
    match p.state
    case Uname => FeedUnameExplains(p, s, c);
    case Plen => FeedPlenExplains(p, s, c);
    case Passwd => FeedPasswdExplains(p, s, c);
    case _ => FeedHead(p, s, c);
  }

  lemma ParseExplained(start: Prawtos, input: seq<byte>)
    requires Fresh(start)
    ensures Explained(Feed, Done, Explains, start, input)
  {
    forall q: Prawtos, t: seq<byte>, c: byte | Explains(q, t) && !Done(q) {
      FeedExplains(q, t, c);
    }
    ConsumeExplained(Feed, Done, Explains, start, input);
  }

  // ---------------------------------------------------------------------------
  // The parser accepts exactly the encodings

  /** A parser that explains a prefix of an encoding has not failed, and cannot
      stop before or after the encoding's end. */
  lemma StopsAtTheEnd(p: Prawtos, s: seq<byte>, m: Message, rest: seq<byte>)
    requires m.Valid() && Explains(p, s) && s <= Encode(m) + rest
    requires !Done(p) ==> s == Encode(m) + rest
    ensures p.state == Finished && s == Encode(m)
  {
    if m.User? {
      StopsAtTheEndOfUser(p, s, m, rest);
    } else {
      var input := Encode(m) + rest;
      EchoStart(p);
      assert |s| > 0 && s[0] == input[0] && p.kind == input[0] != USER;
      assert |s| > 1 ==> s[1] == input[1];
      assert p.state == Finished && s == input[..|s|] == Encode(m);
    }
  }

  lemma EchoStart(p: Prawtos)
    requires WellFormed(p) && p.state != Type
    ensures |Echo(p)| > 0 && Echo(p)[0] == p.kind
  {
  }

  /** Where the pieces of a USER message lie. */
  lemma UserLayout(m: Message, rest: seq<byte>)
    requires m.User? && m.Valid()
    ensures var input, h := Encode(m) + rest, |Header(m.cmd, m.admin)|;
            && |input| == |Encode(m)| + |rest| && |Encode(m)| >= h + 1 + |m.name|
            && input[0] == USER && input[1] == m.cmd && (m.cmd == CREATE ==> input[2] == m.admin)
            && input[h] == |m.name| && input[h + 1..h + 1 + |m.name|] == m.name
            && (m.cmd != DELETE ==>
                  && |Encode(m)| == h + 2 + |m.name| + |m.passwd| && input[h + 1 + |m.name|] == |m.passwd|
                  && input[h + 2 + |m.name|..h + 2 + |m.name| + |m.passwd|] == m.passwd)
            && (m.cmd == DELETE ==> |Encode(m)| == h + 1 + |m.name|)
  {
  }

  /** The first bytes of a USER message settle command and admin flag. */
  lemma HeaderIsRead(p: Prawtos, s: seq<byte>, m: Message, rest: seq<byte>)
    requires m.Valid() && m.User? && Explains(p, s) && s <= Encode(m) + rest
    requires !Done(p) ==> s == Encode(m) + rest
    ensures p.kind == USER && p.userCmd == m.cmd && p.admin == m.admin
    ensures p.state in {Uname, Plen, Passwd, Finished, Failed}
  {
    UserLayout(m, rest);
    var input := Encode(m) + rest;
    assert forall k :: 0 <= k < |s| ==> s[k] == input[k];
  }

  /** The bytes behind the later states, piece by piece. */
  lemma EchoLayout(p: Prawtos)
    requires WellFormed(p) && p.kind == USER && p.state in {Uname, Plen, Passwd, Finished, Failed}
    ensures var s, h, u := Echo(p), |Header(p.userCmd, p.admin)|, p.ulen as int;
            && |s| > h && s[h] == u && (p.state != Failed ==> u > 0)
            && (p.state == Uname ==> |s| == h + 1 + p.i && p.i < u)
            && (p.state == Plen ==> |s| == h + 1 + u)
            && (p.state == Passwd ==> |s| == h + 2 + u + p.i && p.i < p.plen && s[h + 1 + u] == p.plen)
            && (p.state == Finished && p.userCmd == DELETE ==> |s| == h + 1 + u)
            && (p.state == Finished && p.userCmd != DELETE ==> |s| == h + 2 + u + p.plen && s[h + 1 + u] == p.plen)
            && (p.state == Failed && u > 0 ==> |s| == h + 2 + u && s[h + 1 + u] == 0)
  {
  }

  lemma StopsAtTheEndOfUser(p: Prawtos, s: seq<byte>, m: Message, rest: seq<byte>)
    requires m.Valid() && m.User? && Explains(p, s) && s <= Encode(m) + rest
    requires !Done(p) ==> s == Encode(m) + rest
    ensures p.state == Finished && s == Encode(m)
  {
    HeaderIsRead(p, s, m, rest);
    EchoLayout(p);
    UserLayout(m, rest);
    var input, h := Encode(m) + rest, |Header(m.cmd, m.admin)|;
    assert s[h] == input[h] == |m.name|;
    assert |s| >= h + 2 + |m.name| ==> s[h + 1 + |m.name|] == input[h + 1 + |m.name|];
    assert p.state == Finished && |s| == |Encode(m)|;
    assert s == input[..|s|] == Encode(m);
  }

  /** Different messages have different wire forms. */
  lemma EncodeInjective(a: Message, b: Message)
    requires a.Valid() && b.Valid() && Encode(a) == Encode(b)
    ensures a == b
  {
    assert Encode(a) + [] == Encode(a) && Encode(b) + [] == Encode(b);
    if a.User? {
      UserLayout(a, []);
    }
    if b.User? {
      UserLayout(b, []);
    }
  }

  lemma DecodeValid(p: Prawtos)
    requires WellFormed(p) && p.state == Finished
    ensures Decode(p).Valid()
  {
  }

  /** From any freshly initialised parser, every message followed by anything is
      parsed to exactly that message, and what follows stays unread. */
  lemma {:induction false} ParsesMessage(start: Prawtos, m: Message, rest: seq<byte>)
    requires Fresh(start) && m.Valid()
    ensures var (p, left) := Consume(Feed, Done, start, Encode(m) + rest);
            left == rest && p.state == Finished && WellFormed(p) && Decode(p) == m
  {
    var input := Encode(m) + rest;
    ParseExplained(start, input);
    var (p, left) := Consume(Feed, Done, start, input);
    var s := input[..|input| - |left|];
    StopsAtTheEnd(p, s, m, rest);
    DecodeValid(p);
    EncodeInjective(Decode(p), m);
    assert left == input[|s|..] == rest;
  }

  /** A finished parser holds a valid message, and the stream starts with its wire form. */
  lemma {:induction false} FinishedIsEncoding(start: Prawtos, input: seq<byte>)
    requires Fresh(start)
    ensures var (p, rest) := Consume(Feed, Done, start, input);
            p.state == Finished ==> Decode(p).Valid() && input == Encode(Decode(p)) + rest
  {
    ParseExplained(start, input);
    var (p, rest) := Consume(Feed, Done, start, input);
    assert input == input[..|input| - |rest|] + rest;
  }

  /** Which handler-table indices a terminal state carries: GET indices are always
      in range, and a USER index is out of the three-entry table exactly when the
      stream starts with a USER byte and a command above EDIT. */
  lemma {:induction false} HandlerIndices(start: Prawtos, input: seq<byte>)
    requires Fresh(start)
    ensures var p := Consume(Feed, Done, start, input).0;
            && (Done(p) && p.kind == GET ==> p.getCmd < 4)
            && (p.state == Finished && p.kind == USER ==> p.userCmd < 3)
            && (Done(p) && p.kind == USER && p.userCmd >= 3 <==> |input| >= 2 && input[0] == USER && input[1] >= 3)
  {
    ParseExplained(start, input);
    var (p, rest) := Consume(Feed, Done, start, input);
    var s := input[..|input| - |rest|];
    if p.state != Type && !Refused(p) {
      EchoStart(p);
    }
    if p.kind == USER && p.state in {Uname, Plen, Passwd, Finished, Failed} {
      EchoLayout(p);
      EchoCommand(p);
    }
  }

  lemma EchoCommand(p: Prawtos)
    requires WellFormed(p) && p.kind == USER && p.state in {Uname, Plen, Passwd, Finished, Failed}
    ensures |Echo(p)| > 1 && Echo(p)[1] == p.userCmd <= 2
  {
  }

  // ---------------------------------------------------------------------------
  // Fields of 255 bytes

  /** The terminator of a complete field of 255 bytes was stored past its end. */
  predicate Overran(p: Prawtos) {
    || (p.ulen == 255 && p.state in {Plen, Passwd, Finished, Failed})
    || (p.plen == 255 && p.state == Finished)
  }

  /** `s` starts with the header of a USER command, up to its name. */
  predicate HasHeader(s: seq<byte>) {
    |s| >= 2 && s[0] == USER && s[1] <= 2 && (s[1] == CREATE ==> |s| >= 3 && s[2] <= 1)
  }

  /** The stream is a USER command with a name or a password of 255 bytes, up to
      the last byte of that field. */
  predicate FillsField(s: seq<byte>) {
    HasHeader(s) &&
    var h := if s[1] == CREATE then 3 else 2;
    |s| > h &&
    var u: nat := s[h];
    (u == 255 && |s| >= h + 1 + u) || (s[1] != DELETE && u > 0 && |s| >= h + 2 + u + 255 && s[h + 1 + u] == 255)
  }

  lemma OverranEarly(p: Prawtos, s: seq<byte>, input: seq<byte>)
    requires Explains(p, s) && s <= input && (!Done(p) ==> s == input)
    requires p.kind != USER || p.state !in {Uname, Plen, Passwd, Finished, Failed}
    ensures !Overran(p) && !FillsField(input)
  {
    assert forall k :: 0 <= k < |s| ==> s[k] == input[k];
    if p.state != Type && !Refused(p) {
      EchoStart(p);
    }
  }

  lemma OverranUser(p: Prawtos, s: seq<byte>, input: seq<byte>)
    requires Explains(p, s) && s <= input && (!Done(p) ==> s == input)
    requires p.kind == USER && p.state in {Uname, Plen, Passwd, Finished, Failed}
    ensures Overran(p) <==> FillsField(input)
  {
    EchoStart(p);
    EchoCommand(p);
    EchoLayout(p);
    assert forall k :: 0 <= k < |s| ==> s[k] == input[k];
    assert p.userCmd == CREATE ==> s[2] == p.admin <= 1;
  }

  /** From any freshly initialised parser and whatever the stream, a store leaves
      its field exactly for such a stream. */
  lemma {:induction false} OverrunsExactly(start: Prawtos, input: seq<byte>)
    requires Fresh(start)
    ensures Overran(Consume(Feed, Done, start, input).0) <==> FillsField(input)
  {
    ParseExplained(start, input);
    var (p, rest) := Consume(Feed, Done, start, input);
    var s := input[..|input| - |rest|];
    if p.kind == USER && p.state in {Uname, Plen, Passwd, Finished, Failed} {
      OverranUser(p, s, input);
    } else {
      OverranEarly(p, s, input);
    }
  }

  lemma OverranStays(p: Prawtos, input: seq<byte>)
    requires Overran(p) && !Done(p)
    ensures Overran(Consume(Feed, Done, p, input).0)
  {
    ConsumeKeepsFact(Feed, Done, Overran, p, input);
  }

  function Remaining(p: Prawtos): nat {
    var here := if p.n > p.i then p.n - p.i else 1;
    match p.state
    case Type => 515
    case CmdGet => 1
    case CmdUser => 514
    case CmdSniff => 1
    case Admin => 513
    case Ulen => 512
    case Uname => here + 256
    case Plen => 256
    case Passwd => here
    case _ => 0
  }

  /** No command is longer than 515 bytes, whatever its bytes. */
  lemma {:induction false} AtMost515Bytes(start: Prawtos, input: seq<byte>)
    requires Fresh(start) && |input| >= 515
    ensures var (p, rest) := Consume(Feed, Done, start, input);
            Done(p) && |input| - |rest| <= 515
  {
    ConsumeBounded(Feed, Done, Remaining, start, input);
  }

  // ---------------------------------------------------------------------------

  class Parser {
    var state: State
    var kind: byte
    var getCmd: byte
    var userCmd: byte
    var admin: byte
    var ulen: byte
    var uname: Field
    var plen: byte
    var passwd: Field
    var n: nat
    var i: nat

    ghost function View(): Prawtos
      reads this
    {
      Prawtos(state, kind, getCmd, userCmd, admin, ulen, uname, plen, passwd, n, i)
    }

    constructor ()
      ensures Fresh(View())
    {
      state, kind, getCmd, userCmd, admin, ulen, plen, n, i := Type, 0, 0, 0, 0, 0, 0, 0, 0;
      uname, passwd := Zeroes(), Zeroes();
    }

    method Init()
      modifies this
      ensures View() == Initialised(old(View())) && Fresh(View())
      ensures kind == old(kind) && n == old(n) && i == old(i)
    {
      state := Type;
      getCmd := 0;
      userCmd, admin, ulen, uname, plen, passwd := 0, 0, 0, Zeroes(), 0, Zeroes();
    }

    method RemainingSet(k: nat)
      modifies this`i, this`n
      ensures i == 0 && n == k
    {
      i, n := 0, k;
    }

    method FeedName(c: byte)
      modifies this
      ensures View() == FeedUname(old(View()), c)
    {
      uname := Store(uname, i, c);
      i := i + 1;
      if i >= n {
        uname := Store(uname, i, 0);
        state := if userCmd == DELETE then Finished else Plen;
      }
    }

    method FeedPassword(c: byte)
      modifies this
      ensures View() == FeedPasswd(old(View()), c)
    {
      passwd := Store(passwd, i, c);
      i := i + 1;
      if i >= n {
        passwd := Store(passwd, i, 0);
        state := Finished;
      }
    }

    method FeedByte(c: byte) returns (st: State)
      modifies this
      ensures View() == Feed(old(View()), c) && st == state
    {
      match state {
      case Type =>
        state := if c == GET then CmdGet else if c == USER then CmdUser else if c == SNIFF then CmdSniff
                 else if c == QUIT then Finished else UnsupportedType;
        kind := c;
      case CmdGet =>
        if c >= 4 {
          state := UnsupportedCmd;
        } else {
          getCmd, state := c, Finished;
        }
      case CmdUser =>
        state := if c == CREATE then Admin else if c == DELETE || c == EDIT then Ulen else UnsupportedCmd;
        userCmd := c;
      case CmdSniff =>
        if c >= 2 {
          state := UnsupportedCmd;
        } else {
          getCmd, state := c, Finished;
        }
      case Admin =>
        state := if c <= 1 then Ulen else UnsupportedAdmin;
        admin := c;
      case Ulen =>
        if c == 0 {
          state := Failed;
        } else {
          RemainingSet(c);
          ulen, state := c, Uname;
        }
      case Uname => FeedName(c);
      case Plen =>
        if c == 0 {
          state := Failed;
        } else {
          RemainingSet(c);
          plen, state := c, Passwd;
        }
      case Passwd => FeedPassword(c);
      case UnsupportedAdmin => state := Failed;
      case _ =>
      }
      st := state;
    }

    /** One turn of the consume loop: take a byte, feed it, and test for the end. */
    method FeedFrom(b: Buffer) returns (st: State, finished: bool, errored: bool)
      requires b.Valid() && b.CanRead()
      modifies this, b, b.data
      ensures b.Valid() && b.View() == old(b.View()).Take(1)
      ensures View() == Feed(old(View()), old(b.View()).contents[0]) && st == state
      ensures finished == Done(View()) && errored == IsError(state)
    {
      var byte := b.Read();
      st := FeedByte(byte);
      finished, errored := IsDone(st), IsError(st);
    }

    method ConsumeFrom(b: Buffer) returns (st: State, errored: bool, ghost taken: nat)
      requires b.Valid()
      modifies this, b, b.data
      ensures b.Valid()
      ensures Consume(Feed, Done, old(View()), old(b.View()).contents) == (View(), b.View().contents)
      ensures taken <= |old(b.View()).contents| && b.View() == old(b.View()).Take(taken)
      ensures st == state
      ensures errored <==> old(b.View()).contents != [] && IsError(state)
    {
      st, errored, taken := state, false, 0;
      var finished := false;
      ghost var q0, p0 := b.View(), View();
      while b.CanRead() && !finished
        invariant b.Valid() && taken <= |q0.contents| && b.View() == q0.Take(taken)
        invariant Progress(Feed, Done, p0, q0.contents, View(), taken, finished)
        invariant errored == (taken > 0 && IsError(state))
        invariant st == state
        decreases |q0.contents| - taken
      {
        TakeTwice(q0, taken, 1);
        ProgressStep(Feed, Done, p0, q0.contents, View(), taken);
        st, finished, errored := FeedFrom(b);
        taken := taken + 1;
      }
      ProgressEnd(Feed, Done, p0, q0.contents, View(), taken, finished);
    }
  }

  // ---------------------------------------------------------------------------
  // Replies

  /** get_marshal tests the room against its first argument only. It is safe to
      call exactly when that test fails or the whole reply fits. */
  predicate GetMarshalSafe(room: int, args: seq<byte>) {
    args != [] && (room <= args[0] || 3 + |args| <= room)
  }

  method GetMarshal(b: Buffer, status: byte, cmd: byte, nargs: byte, args: seq<byte>) returns (len: int)
    requires b.Valid() && GetMarshalSafe(b.View().Room(), args)
    modifies b, b.data
    ensures b.Valid()
    ensures old(b.View()).Room() <= args[0] ==> len == -1 && b.View() == old(b.View())
    ensures old(b.View()).Room() > args[0] ==>
              len == 3 + |args| && b.View() == old(b.View()).Put([status, cmd, nargs] + args)
  {
    if b.WriteCount() <= args[0] {
      return -1;
    }
    b.Fill([status, cmd, nargs] + args);
    len := 3 + |args|;
  }

  /** user_marshal and quit_marshal: the one-byte status. */
  method StatusMarshal(b: Buffer, status: byte) returns (len: int)
    requires b.Valid()
    modifies b, b.data
    ensures b.Valid()
    ensures old(b.View()).Room() < 1 ==> len == -1 && b.View() == old(b.View())
    ensures old(b.View()).Room() >= 1 ==> len == 1 && b.View() == old(b.View()).Put([status])
  {
    if b.WriteCount() < 1 {
      return -1;
    }
    b.Fill([status]);
    len := 1;
  }
}
