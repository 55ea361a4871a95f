/** The message builders of client/client.c: each fills a byte block at computed
    offsets and produces exactly the wire form the server's parsers accept. */
module ClientMessages {
  import opened Bytes
  import Auth = AuthParser
  import Cmd = PrawtosParser

  const CREDENTIALS_SIZE := 255

  /** A string that scanf stored in a credentials buffer. */
  predicate Typed(text: seq<byte>) {
    0 !in text && 1 <= |text| < CREDENTIALS_SIZE
  }

  /** strcpy of `text` to `message + at`. */
  method StrCpy(message: array<byte>, at: nat, text: seq<byte>)
    requires at + |text| < message.Length
    modifies message
    ensures message[..at] == old(message[..at])
    ensures message[at..at + |text| + 1] == text + [0]
    ensures message[at + |text| + 1..] == old(message[at + |text| + 1..])
  {
    var k := 0;
    while k < |text|
      invariant 0 <= k <= |text|
      invariant message[..at] == old(message[..at])
      invariant message[at..at + k] == text[..k]
      invariant message[at + |text| + 1..] == old(message[at + |text| + 1..])
    {
      message[at + k] := text[k];
      k := k + 1;
    }
    message[at + k] := 0;
  }

  /** first_message: the trailing NUL of the second strcpy is not sent. */
  method LoginMessage(name: seq<byte>, password: seq<byte>) returns (sent: seq<byte>)
    requires Typed(name) && Typed(password)
    ensures sent == Auth.Encode(name, password)
  {
    var message := new byte[3 + |name| + |password| + 1];
    message[0] := 1;
    message[1] := |name|;
    StrCpy(message, 2, name);
    message[2 + |name|] := |password|;
    ghost var head := message[..|name| + 3];
    assert head == [1, |name|] + name + [|password|] by {
      assert head[2..2 + |name|] == message[2..2 + |name| + 1][..|name|];
    }
    StrCpy(message, |name| + 3, password);
    sent := message[..3 + |name| + |password|];
    assert sent == message[..|name| + 3] + message[|name| + 3..|name| + 3 + |password| + 1][..|password|];
  }

  /** Name and password, each with its length byte and its NUL, from `at` to the end. */
  method WriteCredentials(message: array<byte>, at: nat, name: seq<byte>, password: seq<byte>)
    requires Typed(name) && Typed(password) && message.Length == at + 4 + |name| + |password|
    modifies message
    ensures message[..at] == old(message[..at])
    ensures message[at..] == [|name| + 1] + (name + [0]) + ([|password| + 1] + (password + [0]))
  {
    message[at] := |name| + 1;
    StrCpy(message, at + 1, name);
    var p := at + 2 + |name|;
    message[p] := |password| + 1;
    ghost var head := message[..p + 1];
    assert head[..at] == old(message[..at]) && head[at] == |name| + 1 && head[p] == |password| + 1;
    assert head[at + 1..p] == name + [0];
    StrCpy(message, p + 1, password);
    assert message[..p + 1] == head;
    assert message[at..] == [head[at]] + head[at + 1..p] + ([head[p]] + message[p + 1..]);
    assert message[p + 1..] == message[p + 1..p + 1 + |password| + 1];
  }

  /** add_new_user. */
  method CreateMessage(name: seq<byte>, password: seq<byte>, admin: bool) returns (sent: seq<byte>)
    requires Typed(name) && Typed(password)
    ensures sent == Cmd.Encode(Cmd.User(Cmd.CREATE, if admin then 1 else 0, name + [0], password + [0]))
  {
    var message := new byte[7 + |name| + |password|];
    message[0] := 1;
    message[1] := 0;
    message[2] := if admin then 1 else 0;
    WriteCredentials(message, 3, name, password);
    sent := message[..];
    assert sent == message[..3] + message[3..];
  }

  /** remove_user. */
  method DeleteMessage(name: seq<byte>) returns (sent: seq<byte>)
    requires Typed(name)
    ensures sent == Cmd.Encode(Cmd.User(Cmd.DELETE, 0, name + [0], []))
  {
    var message := new byte[4 + |name|];
    message[0] := 1;
    message[1] := 1;
    message[2] := |name| + 1;
    StrCpy(message, 3, name);
    sent := message[..4 + |name|];
    assert sent == message[..3] + message[3..3 + |name| + 1];
  }

  /** modify_user. */
  method EditMessage(name: seq<byte>, password: seq<byte>) returns (sent: seq<byte>)
    requires Typed(name) && Typed(password)
    ensures sent == Cmd.Encode(Cmd.User(Cmd.EDIT, 0, name + [0], password + [0]))
  {
    var message := new byte[6 + |name| + |password|];
    message[0] := 1;
    message[1] := 2;
    WriteCredentials(message, 2, name, password);
    sent := message[..];
    assert sent == message[..2] + message[2..];
  }
}
