/** The linked list behind the registry, src/user_utils.c, proved to implement
    the operations of Accounts. A stored block is the string at its start and its
    size; only a block larger than its string has a NUL. */
module UserList {
  import opened Bytes
  import opened Accounts

  class User {
    const isAdmin: bool
    const username: seq<byte>
    const ulen: nat
    var password: seq<byte>
    var upass: nat
    var next: User?

    constructor (username: seq<byte>, ulen: nat, password: seq<byte>, upass: nat, isAdmin: bool)
      ensures this.username == username && this.ulen == ulen && this.password == password && this.upass == upass
      ensures this.isAdmin == isAdmin && next == null
    {
      this.username, this.ulen, this.password, this.upass := username, ulen, password, upass;
      this.isAdmin, next := isAdmin, null;
    }
  }

  /** strcmp answers 0 for a stored block and a terminated string. */
  predicate SameString(text: seq<byte>, size: nat, s: seq<byte>)
    requires !RunsPast(text, size, s)
  {
    text == s
  }

  /** The nodes are distinct, follow each other, and the last one leads to `end`. */
  ghost predicate Linked(nodes: seq<User>, end: User?)
    reads nodes
  {
    && (forall i, j :: 0 <= i < j < |nodes| ==> nodes[i] != nodes[j])
    && (forall i, j :: 0 <= i < j < |nodes| && j == i + 1 ==> nodes[i].next == nodes[j])
    && (nodes != [] ==> nodes[|nodes| - 1].next == end)
  }

  ghost predicate Hold(nodes: seq<User>, users: seq<Account>)
    reads nodes
  {
    && |nodes| == |users|
    && forall i :: 0 <= i < |nodes| ==>
         users[i] == Account(nodes[i].username, nodes[i].ulen, nodes[i].password, nodes[i].upass, nodes[i].isAdmin)
  }

  /** `first` heads a null-ended chain through exactly `nodes`, holding `users`. */
  ghost predicate Chain(first: User?, nodes: seq<User>, users: seq<Account>)
    reads nodes
  {
    first == (if nodes == [] then null else nodes[0]) && Linked(nodes, null) && Hold(nodes, users)
  }

  /** Redirecting the last node is the only change to the links. */
  twostate lemma Relinked(nodes: seq<User>, new end: User?)
    requires old(Linked(nodes, null))
    requires forall u | u in nodes :: u.next == if u == nodes[|nodes| - 1] then end else old(u.next)
    ensures Linked(nodes, end)
  {
  }

  lemma ChainAppend(nodes: seq<User>, users: seq<Account>, node: User, a: Account)
    requires Linked(nodes, node) && Hold(nodes, users) && node !in nodes && node.next == null
    requires a == Account(node.username, node.ulen, node.password, node.upass, node.isAdmin)
    ensures Linked(nodes + [node], null) && Hold(nodes + [node], users + [a])
  {
  }

  class Registry {
    var first: User?
    var size: int
    ghost var nodes: seq<User>
    ghost var users: seq<Account>

    ghost predicate Valid()
      reads this, nodes
    {
      Chain(first, nodes, users) && size == |users|
    }

    constructor ()
      ensures Valid() && users == []
    {
      first, size, nodes, users := null, 0, [], [];
    }

    /** add_user_rec. `rest` are the nodes from `head` on, `tail` their accounts;
        `node` is the new last node if one is added. */
    static method AddRec(head: User?, ghost rest: seq<User>, ghost tail: seq<Account>,
                         username: seq<byte>, ulen: nat, password: seq<byte>, plen: nat, isAdmin: bool)
      returns (ret: User?, added: bool, ghost node: User?)
      requires Chain(head, rest, tail) && ScanDefined(tail, username)
      modifies rest`next
      ensures added <==> !Present(tail, username)
      ensures added ==> node != null && fresh(node) && node.next == null && node.username == username
                        && node.ulen == ulen && node.password == password && node.upass == plen
                        && node.isAdmin == isAdmin
      ensures ret == if added && rest == [] then node else head
      ensures forall u | u in rest ::
                u.next == if added && u == rest[|rest| - 1] then node else old(u.next)
      decreases |rest|
    {
      if head == null {
        ret := new User(username, ulen, password, plen, isAdmin);
        added, node := true, ret;
      } else if SameString(head.username, head.ulen, username) {
        ret, added, node := head, false, null;
      } else {
        var next;
        next, added, node := AddRec(head.next, rest[1..], tail[1..], username, ulen, password, plen, isAdmin);
        head.next := next;
        ret := head;
      }
    }

    static method AddTo(head: User?, ghost before: seq<User>, ghost accounts: seq<Account>,
                        username: seq<byte>, ulen: nat, password: seq<byte>, plen: nat, isAdmin: bool)
      returns (ret: User?, added: bool, ghost after: seq<User>, ghost longer: seq<Account>)
      requires Chain(head, before, accounts) && ScanDefined(accounts, username)
      modifies before`next
      ensures longer == Add(accounts, Account(username, ulen, password, plen, isAdmin))
      ensures Chain(ret, after, longer) && |longer| == |accounts| + if added then 1 else 0
      ensures forall u | u in after :: u in before || fresh(u)
      ensures added <==> !Present(accounts, username)
    {
      ghost var node;
      ret, added, node := AddRec(head, before, accounts, username, ulen, password, plen, isAdmin);
      Relinked(before, if added then node else null);
      after, longer := before, accounts;
      if added {
        ChainAppend(before, accounts, node, Account(username, ulen, password, plen, isAdmin));
        after, longer := before + [node], accounts + [Account(username, ulen, password, plen, isAdmin)];
      }
    }

    /** The list is now the chain from `head`. */
    method Adopt(head: User?, length: int, ghost chain: seq<User>, ghost accounts: seq<Account>)
      requires Chain(head, chain, accounts) && length == |accounts|
      modifies this
      ensures Valid() && nodes == chain && users == accounts
    {
      first, size, nodes, users := head, length, chain, accounts;
    }

    /** The blocks are copies of `ulen` and `plen` bytes that start with the two
        strings; they need not include a NUL. */
    method AddUser(username: seq<byte>, ulen: nat, password: seq<byte>, plen: nat, isAdmin: bool) returns (added: bool)
      requires Valid() && ScanDefined(users, username) && |username| <= ulen && |password| <= plen
      modifies this, nodes`next
      ensures Valid() && forall u | u in nodes :: u in old(nodes) || fresh(u)
      ensures users == Add(old(users), Account(username, ulen, password, plen, isAdmin))
      ensures added <==> !Present(old(users), username)
    {
      var head;
      ghost var after, longer;
      head, added, after, longer := AddTo(first, nodes, users, username, ulen, password, plen, isAdmin);
      Adopt(head, if added then size + 1 else size, after, longer);
    }

    /** The search loop of delete_user and edit_user: `c` tells whether `curr` is
        the named user, `i` is its position and `prev` the node before it. */
    method Find(username: seq<byte>) returns (prev: User?, curr: User?, c: bool, ghost i: nat)
      requires Valid() && ScanDefined(users, username)
      ensures i == IndexOf(users, username) && curr == (if i < |nodes| then nodes[i] else null)
      ensures c <==> i < |nodes|
      ensures prev == if i == 0 then first else nodes[i - 1]
    {
      prev, curr, c, i := first, first, false, 0;
      while curr != null && !c
        invariant 0 <= i <= |nodes| && curr == (if i < |nodes| then nodes[i] else null)
        invariant prev == if i == 0 then first else nodes[i - 1]
        invariant forall j :: 0 <= j < i ==> users[j].key != username
        invariant c ==> i < |nodes| && users[i].key == username
        decreases |nodes| - i, !c
      {
        assert i <= IndexOf(users, username);
        c := SameString(curr.username, curr.ulen, username);
        if !c {
          prev, curr := curr, curr.next;
          i := i + 1;
        }
      }
    }

    /** Bypass the node at position `i`. */
    method Unlink(prev: User?, curr: User, ghost i: nat)
      requires Chain(first, nodes, users) && i < |nodes| && curr == nodes[i]
      requires prev == if i == 0 then first else nodes[i - 1]
      modifies this`first, nodes`next
      ensures Chain(first, nodes[..i] + nodes[i + 1..], Without(users, i))
    {
      var aux := curr.next;
      if curr == first {
        first := aux;
      } else {
        prev.next := aux;
      }
    }

    /** Take the node at position `i` out of the list. */
    method Remove(prev: User?, curr: User, ghost i: nat)
      requires Valid() && i < |nodes| && curr == nodes[i]
      requires prev == if i == 0 then first else nodes[i - 1]
      modifies this, nodes`next
      ensures Valid() && users == Without(old(users), i) && nodes == old(nodes[..i] + nodes[i + 1..])
    {
      ghost var kept, left := nodes[..i] + nodes[i + 1..], Without(users, i);
      Unlink(prev, curr, i);
      Adopt(first, size - 1, kept, left);
    }

    method DeleteUser(username: seq<byte>) returns (deleted: bool)
      requires Valid() && ScanDefined(users, username)
      modifies this, nodes`next
      ensures Valid() && users == Delete(old(users), username)
      ensures forall u | u in nodes :: u in old(nodes)
      ensures deleted <==> Present(old(users), username)
    {
      var prev, curr, c;
      ghost var i;
      prev, curr, c, i := Find(username);
      if !c {
        return false;
      }
      Remove(prev, curr, i);
      return true;
    }

    /** strcpy into the reallocated block needs room for the NUL. */
    method EditUser(username: seq<byte>, password: seq<byte>, upass: nat) returns (edited: bool)
      requires Valid() && ScanDefined(users, username) && (Present(users, username) ==> |password| < upass)
      modifies this`users, nodes`password, nodes`upass
      ensures Valid() && users == Edit(old(users), username, password, upass)
      ensures edited <==> Present(old(users), username)
    {
      var prev, curr, c;
      ghost var i;
      prev, curr, c, i := Find(username);
      if !c {
        return false;
      }
      curr.password, curr.upass := password, upass;
      users := users[i := users[i].(secret := password, plen := upass)];
      return true;
    }

    /** get_all_users: the reply block and the number of bytes used. Every store
        below is inside the block that malloc or realloc returned. */
    method GetAllUsers() returns (all: array<byte>, nwrite: nat)
      requires Valid() && ListingDefined(users) && Sized(users)
      ensures fresh(all) && nwrite <= all.Length && IsListing(all[..nwrite], users)
    {
      var capacity := FIRST_CAPACITY;
      all := new byte[capacity];
      var user := first;
      var cont: nat := 0;
      var k := 0;
      ListingDefinedExactly(users);
      while k < size
        invariant 0 <= k <= size && user == (if k < |nodes| then nodes[k] else null)
        invariant fresh(all) && all.Length == capacity == Capacity(users[..k]) && cont == ListingSize(users[..k])
        invariant PlacedUpTo(all[..], users, k)
      {
        assert StoreFits(users, k);
        all, capacity, cont := AppendUser(all, cont, capacity, user, users, k);
        user := user.next;
        k := k + 1;
      }
      assert users[..k] == users;
      nwrite := cont;
      PlacedIsListing(all[..], users);
      assert all[..][..nwrite] == all[..nwrite];
    }

    /** One turn of the loop: grow if the next user might not fit, then write it. */
    static method AppendUser(block: array<byte>, cont: nat, size: nat, user: User,
                             ghost accounts: seq<Account>, ghost k: nat)
      returns (all: array<byte>, capacity: nat, cont': nat)
      requires k < |accounts| && cont == ListingSize(accounts[..k]) && NamesEnd(accounts)
      requires block.Length == size == Capacity(accounts[..k])
      requires user.username == accounts[k].key && user.ulen == accounts[k].ulen <= 255
      requires StoreFits(accounts, k) && PlacedUpTo(block[..], accounts, k)
      modifies block
      ensures all == block || fresh(all)
      ensures all.Length == capacity == Capacity(accounts[..k + 1]) && cont' == ListingSize(accounts[..k + 1])
      ensures PlacedUpTo(all[..], accounts, k + 1)
    {
      ghost var before := block[..];
      assert accounts[..k + 1][..k] == accounts[..k];
      all, capacity := block, size;
      if cont >= capacity || cont + user.ulen >= capacity {
        capacity := 2 * capacity;
        all := Realloc(all, capacity);
      }
      assert all[..|before|] == before;
      WriteEntry(all, cont, user, accounts[k]);
      PlacedIsKept(before, all[..], accounts, k);
      assert PlacedAt(all[..], accounts, k);
      cont' := cont + 1 + user.ulen;
    }

    /** A larger block with the bytes of the old one; the rest is undefined. */
    static method Realloc(a: array<byte>, capacity: nat) returns (b: array<byte>)
      requires a.Length <= capacity
      ensures fresh(b) && b.Length == capacity && b[..a.Length] == a[..]
    {
      b := new byte[capacity];
      forall j | 0 <= j < a.Length {
        b[j] := a[j];
      }
    }

    /** The length byte and the strcpy of one user. */
    static method WriteEntry(all: array<byte>, cont: nat, user: User, ghost a: Account)
      requires user.username == a.key && user.ulen == a.ulen <= 255 && cont + 1 + |a.key| < all.Length
      modifies all
      ensures Placed(all[..], cont, a) && all[..cont] == old(all[..cont])
    {
      var n := |user.username|;
      all[cont] := user.ulen;
      forall j | 0 <= j < n {
        all[cont + 1 + j] := user.username[j];
      }
      all[cont + 1 + n] := 0;
      assert all[..][cont + 1..][..n] == user.username;
    }

    method CheckCredentials(uname: seq<byte>, passwd: seq<byte>) returns (answer: int)
      requires Valid() && CheckDefined(users, uname, passwd)
      ensures answer == if Accepts(users, uname, passwd) then 0 else 1
    {
      var current := first;
      ghost var i := 0;
      while current != null
        invariant 0 <= i <= |nodes| && current == (if i < |nodes| then nodes[i] else null)
        invariant forall j :: 0 <= j < i ==> !Matches(users[j], uname, passwd)
        decreases |nodes| - i
      {
        assert i <= FirstMatch(users, uname, passwd) && Comparable(users[i], uname, passwd);
        if SameString(current.username, current.ulen, uname) && SameString(current.password, current.upass, passwd)
           && current.isAdmin {
          assert Matches(users[i], uname, passwd);
          return 0;
        }
        current := current.next;
        i := i + 1;
      }
      return 1;
    }
  }
}
