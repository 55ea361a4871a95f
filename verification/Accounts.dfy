/** The user registry of src/user_utils.c as a value: accounts in insertion
    order, and the map from names to credentials that they stand for. */
module Accounts {
  import opened Bytes

  /** A stored user: the strings at the start of its name and password blocks,
      and the sizes of the blocks. A block whose string fills it has no NUL. */
  datatype Account = Account(key: seq<byte>, ulen: nat, secret: seq<byte>, plen: nat, admin: bool) {

    predicate Valid() {
      0 !in key && |key| <= ulen <= 255 && 0 !in secret && |secret| <= plen <= 255
    }

    predicate Terminated() {
      |key| < ulen && |secret| < plen
    }
  }

  /** strcmp of a stored block with the string `s` reads past the block: no NUL
      ends it, and all its bytes agree with `s`. */
  predicate RunsPast(text: seq<byte>, size: nat, s: seq<byte>) {
    |text| >= size && text <= s
  }

  predicate UniqueKeys(users: seq<Account>) {
    forall i, j :: 0 <= i < j < |users| ==> users[i].key != users[j].key
  }

  predicate Valid(users: seq<Account>) {
    UniqueKeys(users) && forall i :: 0 <= i < |users| ==> users[i].Valid()
  }

  /** The position of a name, or the length of the list. */
  function IndexOf(users: seq<Account>, key: seq<byte>): (r: nat)
    ensures r <= |users| && (r < |users| ==> users[r].key == key)
    ensures forall j :: 0 <= j < r ==> users[j].key != key
  {
    if users == [] || users[0].key == key then 0 else 1 + IndexOf(users[1..], key)
  }

  predicate Present(users: seq<Account>, key: seq<byte>) {
    IndexOf(users, key) < |users|
  }

  function Add(users: seq<Account>, a: Account): seq<Account> {
    if Present(users, a.key) then users else users + [a]
  }

  function Without(users: seq<Account>, i: nat): (r: seq<Account>)
    requires i < |users|
    ensures |r| == |users| - 1
    ensures forall j :: 0 <= j < |r| ==> r[j] == users[if j < i then j else j + 1]
  {
    users[..i] + users[i + 1..]
  }

  function Delete(users: seq<Account>, key: seq<byte>): seq<Account> {
    var i := IndexOf(users, key);
    if i < |users| then Without(users, i) else users
  }

  function Edit(users: seq<Account>, key: seq<byte>, secret: seq<byte>, plen: nat): seq<Account> {
    var i := IndexOf(users, key);
    if i < |users| then users[i := users[i].(secret := secret, plen := plen)] else users
  }

  /** The search for a name, as add_user, delete_user and edit_user make it,
      compares without running past any block. */
  predicate ScanDefined(users: seq<Account>, s: seq<byte>) {
    forall i :: 0 <= i < |users| && i <= IndexOf(users, s) ==> !RunsPast(users[i].key, users[i].ulen, s)
  }

  lemma AddKeepsValid(users: seq<Account>, a: Account)
    requires Valid(users) && a.Valid()
    ensures Valid(Add(users, a))
  {
  }

  lemma WithoutKeepsValid(users: seq<Account>, d: nat)
    requires Valid(users) && d < |users|
    ensures Valid(Without(users, d))
  {
    var users' := Without(users, d);
    forall i, j | 0 <= i < j < |users'| ensures users'[i].key != users'[j].key {
      assert users'[i] == users[if i < d then i else i + 1] && users'[j] == users[if j < d then j else j + 1];
    }
  }

  lemma DeleteKeepsValid(users: seq<Account>, key: seq<byte>)
    requires Valid(users)
    ensures Valid(Delete(users, key))
  {
    var i := IndexOf(users, key);
    if i < |users| {
      WithoutKeepsValid(users, i);
    }
  }

  lemma ReplaceKeepsValid(users: seq<Account>, i: nat, secret: seq<byte>, plen: nat)
    requires Valid(users) && i < |users| && 0 !in secret && |secret| <= plen <= 255
    ensures Valid(users[i := users[i].(secret := secret, plen := plen)])
  {
    var users' := users[i := users[i].(secret := secret, plen := plen)];
    assert forall j :: 0 <= j < |users| ==> users'[j].key == users[j].key;
  }

  lemma EditKeepsValid(users: seq<Account>, key: seq<byte>, secret: seq<byte>, plen: nat)
    requires Valid(users) && 0 !in secret && |secret| <= plen <= 255
    ensures Valid(Edit(users, key, secret, plen))
  {
    var i := IndexOf(users, key);
    if i < |users| {
      ReplaceKeepsValid(users, i, secret, plen);
    }
  }

  predicate Matches(a: Account, uname: seq<byte>, passwd: seq<byte>) {
    a.key == uname && a.secret == passwd && a.admin
  }

  /** user_check_credentials answers 0. */
  predicate Accepts(users: seq<Account>, uname: seq<byte>, passwd: seq<byte>) {
    exists i :: 0 <= i < |users| && Matches(users[i], uname, passwd)
  }

  /** Where user_check_credentials stops, or the length of the list. */
  function FirstMatch(users: seq<Account>, uname: seq<byte>, passwd: seq<byte>): (r: nat)
    ensures r <= |users| && (r < |users| ==> Matches(users[r], uname, passwd))
    ensures forall j :: 0 <= j < r ==> !Matches(users[j], uname, passwd)
  {
    if users == [] || Matches(users[0], uname, passwd) then 0 else 1 + FirstMatch(users[1..], uname, passwd)
  }

  /** The comparisons that a login makes with one user stay inside its blocks. */
  predicate Comparable(a: Account, uname: seq<byte>, passwd: seq<byte>) {
    !RunsPast(a.key, a.ulen, uname) && (a.key == uname ==> !RunsPast(a.secret, a.plen, passwd))
  }

  predicate CheckDefined(users: seq<Account>, uname: seq<byte>, passwd: seq<byte>) {
    forall i :: 0 <= i < |users| && i <= FirstMatch(users, uname, passwd) ==> Comparable(users[i], uname, passwd)
  }

  /** The login is accepted, and nothing read on the way to it is undefined. */
  predicate Honours(users: seq<Account>, uname: seq<byte>, passwd: seq<byte>) {
    Accepts(users, uname, passwd) && CheckDefined(users, uname, passwd)
  }

  // ---------------------------------------------------------------------------
  // Refinement of a finite map

  datatype Credential = Credential(secret: seq<byte>, admin: bool)

  type Registry = map<seq<byte>, Credential>

  function CredentialOf(a: Account): Credential {
    Credential(a.secret, a.admin)
  }

  function ToMap(users: seq<Account>): Registry {
    if users == [] then map[]
    else
      var n := |users| - 1;
      ToMap(users[..n])[users[n].key := CredentialOf(users[n])]
  }

  predicate Has(users: seq<Account>, key: seq<byte>) {
    exists i :: 0 <= i < |users| && users[i].key == key
  }

  /** `m` holds each user's credential under its name, and nothing else. */
  ghost predicate IsMapOf(m: Registry, users: seq<Account>) {
    && (forall i :: 0 <= i < |users| ==> users[i].key in m && m[users[i].key] == CredentialOf(users[i]))
    && (forall k :: k in m ==> Has(users, k))
  }

  lemma PresentIsHas(users: seq<Account>, key: seq<byte>)
    ensures Present(users, key) <==> Has(users, key)
  {
  }

  lemma ExtendMap(m: Registry, users: seq<Account>, a: Account)
    requires IsMapOf(m, users) && a.key !in m
    ensures IsMapOf(m[a.key := CredentialOf(a)], users + [a])
  {
    var users' := users + [a];
    forall k | k in m ensures Has(users', k) {
      var i :| 0 <= i < |users| && users[i].key == k;
      assert users'[i].key == k;
    }
    assert users'[|users|].key == a.key;
  }

  lemma {:induction false} ToMapIsMapOf(users: seq<Account>)
    requires UniqueKeys(users)
    ensures IsMapOf(ToMap(users), users) && |ToMap(users)| == |users|
  {
    if users == [] {
    } else {
      var n := |users| - 1;
      ToMapIsMapOf(users[..n]);
      assert users[n].key !in ToMap(users[..n]);
      ExtendMap(ToMap(users[..n]), users[..n], users[n]);
      assert users[..n] + [users[n]] == users;
    }
  }

  lemma IsMapOfDetermines(m: Registry, users: seq<Account>)
    requires UniqueKeys(users) && IsMapOf(m, users)
    ensures m == ToMap(users)
  {
    ToMapIsMapOf(users);
  }

  lemma PresentInMap(users: seq<Account>, key: seq<byte>)
    requires UniqueKeys(users)
    ensures Present(users, key) <==> key in ToMap(users)
    ensures Present(users, key) ==> ToMap(users)[key] == CredentialOf(users[IndexOf(users, key)])
  {
    ToMapIsMapOf(users);
    PresentIsHas(users, key);
  }

  /** add_user changes the map exactly when the name is absent, and then adds only it. */
  lemma AddRefines(users: seq<Account>, a: Account)
    requires Valid(users) && a.Valid()
    ensures Valid(Add(users, a))
    ensures Add(users, a) != users <==> a.key !in ToMap(users)
    ensures ToMap(Add(users, a)) ==
            if a.key in ToMap(users) then ToMap(users) else ToMap(users)[a.key := CredentialOf(a)]
  {
    PresentInMap(users, a.key);
    if !Present(users, a.key) {
      assert (users + [a])[..|users|] == users;
    }
  }

  lemma WithoutFromMap(m: Registry, users: seq<Account>, i: nat)
    requires UniqueKeys(users) && i < |users| && IsMapOf(m, users)
    ensures IsMapOf(m - {users[i].key}, Without(users, i))
  {
    var users' := Without(users, i);
    forall j | 0 <= j < |users'| ensures users'[j].key != users[i].key {
      var k := if j < i then j else j + 1;
      assert users'[j] == users[k];
    }
    forall k | k in m && k != users[i].key ensures Has(users', k) {
      var j :| 0 <= j < |users| && users[j].key == k;
      assert users'[if j < i then j else j - 1].key == k;
    }
  }

  lemma RemoveRefines(users: seq<Account>, i: nat)
    requires Valid(users) && i < |users|
    ensures Valid(Without(users, i)) && ToMap(Without(users, i)) == ToMap(users) - {users[i].key}
  {
    ToMapIsMapOf(users);
    WithoutKeepsValid(users, i);
    WithoutFromMap(ToMap(users), users, i);
    IsMapOfDetermines(ToMap(users) - {users[i].key}, Without(users, i));
  }

  /** delete_user removes exactly the named user, and leaves all others in order. */
  lemma DeleteRefines(users: seq<Account>, key: seq<byte>)
    requires Valid(users)
    ensures Valid(Delete(users, key))
    ensures |Delete(users, key)| == |users| - (if key in ToMap(users) then 1 else 0)
    ensures ToMap(Delete(users, key)) == ToMap(users) - {key}
  {
    PresentInMap(users, key);
    var i := IndexOf(users, key);
    if i < |users| {
      RemoveRefines(users, i);
    } else {
      assert ToMap(users) - {key} == ToMap(users);
    }
  }

  lemma ReplaceInMap(m: Registry, users: seq<Account>, i: nat, secret: seq<byte>, plen: nat)
    requires UniqueKeys(users) && i < |users| && IsMapOf(m, users)
    ensures IsMapOf(m[users[i].key := Credential(secret, users[i].admin)],
                    users[i := users[i].(secret := secret, plen := plen)])
  {
    var users' := users[i := users[i].(secret := secret, plen := plen)];
    assert forall j :: 0 <= j < |users| ==> users'[j].key == users[j].key;
    forall k | k in m ensures Has(users', k) {
      var j :| 0 <= j < |users| && users[j].key == k;
      assert users'[j].key == k;
    }
    assert forall j :: 0 <= j < |users| && j != i ==> users[j].key != users[i].key;
  }

  lemma ReplaceRefines(users: seq<Account>, i: nat, secret: seq<byte>, plen: nat)
    requires Valid(users) && i < |users| && 0 !in secret && |secret| <= plen <= 255
    ensures var users' := users[i := users[i].(secret := secret, plen := plen)];
            Valid(users') && ToMap(users') == ToMap(users)[users[i].key := Credential(secret, users[i].admin)]
  {
    var m, c := ToMap(users), Credential(secret, users[i].admin);
    ToMapIsMapOf(users);
    ReplaceInMap(m, users, i, secret, plen);
    ReplaceKeepsValid(users, i, secret, plen);
    IsMapOfDetermines(m[users[i].key := c], users[i := users[i].(secret := secret, plen := plen)]);
  }

  /** edit_user replaces exactly the password of the named user. */
  lemma EditRefines(users: seq<Account>, key: seq<byte>, secret: seq<byte>, plen: nat)
    requires Valid(users) && 0 !in secret && |secret| <= plen <= 255
    ensures Valid(Edit(users, key, secret, plen)) && |Edit(users, key, secret, plen)| == |users|
    ensures ToMap(Edit(users, key, secret, plen)) ==
            if key in ToMap(users) then ToMap(users)[key := ToMap(users)[key].(secret := secret)] else ToMap(users)
  {
    PresentInMap(users, key);
    if Present(users, key) {
      ReplaceRefines(users, IndexOf(users, key), secret, plen);
    }
  }

  /** A login is accepted exactly when the map holds that password for an admin. */
  lemma AcceptsIsLookup(users: seq<Account>, uname: seq<byte>, passwd: seq<byte>)
    requires Valid(users)
    ensures Accepts(users, uname, passwd) <==>
            uname in ToMap(users) && ToMap(users)[uname] == Credential(passwd, true)
  {
    ToMapIsMapOf(users);
    PresentInMap(users, uname);
    if uname in ToMap(users) && ToMap(users)[uname] == Credential(passwd, true) {
      assert Matches(users[IndexOf(users, uname)], uname, passwd);
    }
  }

  // ---------------------------------------------------------------------------
  // Insertion order

  function Names(users: seq<Account>): (r: seq<seq<byte>>)
    ensures |r| == |users| && forall i :: 0 <= i < |users| ==> r[i] == users[i].key
  {
    seq(|users|, i requires 0 <= i < |users| => users[i].key)
  }

  /** The list without the given name, everything else in its order. */
  function Dropped(names: seq<seq<byte>>, key: seq<byte>): seq<seq<byte>> {
    if names == [] then [] else (if names[0] == key then [] else [names[0]]) + Dropped(names[1..], key)
  }

  lemma {:induction false} DroppedJoin(a: seq<seq<byte>>, b: seq<seq<byte>>, key: seq<byte>)
    ensures Dropped(a + b, key) == Dropped(a, key) + Dropped(b, key)
    decreases |a|
  {
    if a == [] {
      assert a + b == b;
    } else {
      assert (a + b)[1..] == a[1..] + b;
      DroppedJoin(a[1..], b, key);
    }
  }

  lemma {:induction false} NothingDropped(names: seq<seq<byte>>, key: seq<byte>)
    requires key !in names
    ensures Dropped(names, key) == names
  {
    if names != [] {
      NothingDropped(names[1..], key);
    }
  }

  /** The list stays in insertion order: add appends the name if it is absent,
      delete drops it, edit leaves the names alone. */
  lemma {:induction false} OrderKept(users: seq<Account>, a: Account, key: seq<byte>, secret: seq<byte>, plen: nat)
    requires UniqueKeys(users)
    ensures Names(Add(users, a)) == Names(users) + if a.key in Names(users) then [] else [a.key]
    ensures Names(Delete(users, key)) == Dropped(Names(users), key)
    ensures Names(Edit(users, key, secret, plen)) == Names(users)
  {
    AddOrder(users, a);
    DeleteOrder(users, key);
    EditOrder(users, key, secret, plen);
  }

  lemma {:induction false} AddOrder(users: seq<Account>, a: Account)
    ensures Names(Add(users, a)) == Names(users) + if a.key in Names(users) then [] else [a.key]
  {
    var names := Names(users);
    if Present(users, a.key) {
      assert names[IndexOf(users, a.key)] == a.key && names + [] == names;
    } else {
      assert forall i :: 0 <= i < |users| ==> names[i] != a.key;
    }
  }

  lemma {:induction false} EditOrder(users: seq<Account>, key: seq<byte>, secret: seq<byte>, plen: nat)
    ensures Names(Edit(users, key, secret, plen)) == Names(users)
  {
  }

  lemma {:induction false} DroppedFirst(key: seq<byte>, after: seq<seq<byte>>)
    ensures Dropped([key] + after, key) == Dropped(after, key)
  {
    assert ([key] + after)[1..] == after;
  }

  lemma {:induction false} DroppedOne(before: seq<seq<byte>>, key: seq<byte>, after: seq<seq<byte>>)
    requires key !in before && key !in after
    ensures Dropped(before + ([key] + after), key) == before + after
  {
    var tail := [key] + after;
    DroppedJoin(before, tail, key);
    DroppedFirst(key, after);
    NothingDropped(before, key);
    NothingDropped(after, key);
  }

  lemma DeleteOrder(users: seq<Account>, key: seq<byte>)
    requires UniqueKeys(users)
    ensures Names(Delete(users, key)) == Dropped(Names(users), key)
  {
    var i, names := IndexOf(users, key), Names(users);
    if i < |users| {
      var before, after := names[..i], names[i + 1..];
      DroppedOne(before, key, after);
      assert names == before + ([key] + after);
      assert Names(Without(users, i)) == before + after;
    } else {
      NothingDropped(names, key);
    }
  }

  // ---------------------------------------------------------------------------
  // What the operations do to a login that is honoured

  /** A new terminated admin, whose name was searched without running past a
      block, can log in. */
  lemma AddedIsHonoured(users: seq<Account>, a: Account)
    requires ScanDefined(users, a.key) && !Present(users, a.key) && a.Terminated() && a.admin
    ensures Honours(Add(users, a), a.key, a.secret)
  {
    var users' := Add(users, a);
    assert Matches(users'[|users|], a.key, a.secret);
    assert forall j :: 0 <= j < |users| ==> !Matches(users'[j], a.key, a.secret);
  }

  /** The login of an edited admin is honoured with the new password. */
  lemma EditedIsHonoured(users: seq<Account>, key: seq<byte>, secret: seq<byte>, plen: nat)
    requires ScanDefined(users, key) && Present(users, key) && users[IndexOf(users, key)].admin && |secret| < plen
    ensures Honours(Edit(users, key, secret, plen), key, secret)
  {
    var i, users' := IndexOf(users, key), Edit(users, key, secret, plen);
    assert Matches(users'[i], key, secret);
    assert forall j :: 0 <= j < i ==> users'[j] == users[j] && !Matches(users'[j], key, secret);
  }

  lemma AddKeepsLogin(users: seq<Account>, a: Account, uname: seq<byte>, passwd: seq<byte>)
    requires Honours(users, uname, passwd)
    ensures Honours(Add(users, a), uname, passwd)
  {
    var i, users' := FirstMatch(users, uname, passwd), Add(users, a);
    assert Matches(users'[i], uname, passwd);
    assert forall j :: 0 <= j <= i ==> users'[j] == users[j];
  }

  lemma DeleteKeepsLogin(users: seq<Account>, key: seq<byte>, uname: seq<byte>, passwd: seq<byte>)
    requires Honours(users, uname, passwd) && key != uname
    ensures Honours(Delete(users, key), uname, passwd)
  {
    var i, d, users' := FirstMatch(users, uname, passwd), IndexOf(users, key), Delete(users, key);
    if d < |users| {
      var i' := if d < i then i - 1 else i;
      assert Matches(users'[i'], uname, passwd);
    }
  }

  lemma EditKeepsLogin(users: seq<Account>, key: seq<byte>, secret: seq<byte>, plen: nat,
                       uname: seq<byte>, passwd: seq<byte>)
    requires Honours(users, uname, passwd) && key != uname
    ensures Honours(Edit(users, key, secret, plen), uname, passwd)
  {
    var i, users' := FirstMatch(users, uname, passwd), Edit(users, key, secret, plen);
    assert Matches(users'[i], uname, passwd);
    assert forall j :: 0 <= j < |users| ==> users'[j].key == users[j].key && users'[j].ulen == users[j].ulen;
    assert forall j :: 0 <= j < |users| && users[j].key == uname ==> users'[j] == users[j];
  }

  predicate AllTerminated(users: seq<Account>) {
    forall i :: 0 <= i < |users| ==> users[i].Terminated()
  }

  lemma AddTerminated(users: seq<Account>, a: Account)
    requires AllTerminated(users) && !Present(users, a.key)
    ensures AllTerminated(Add(users, a)) <==> a.Terminated()
  {
    var users' := Add(users, a);
    assert users'[|users|] == a && forall i :: 0 <= i < |users| ==> users'[i] == users[i];
  }

  lemma DeleteTerminated(users: seq<Account>, key: seq<byte>)
    requires AllTerminated(users)
    ensures AllTerminated(Delete(users, key))
  {
  }

  lemma EditTerminated(users: seq<Account>, key: seq<byte>, secret: seq<byte>, plen: nat)
    requires AllTerminated(users) && |secret| < plen
    ensures AllTerminated(Edit(users, key, secret, plen))
  {
  }

  /** No search and no login can run past a block when every block has its NUL. */
  lemma TerminatedIsDefined(users: seq<Account>, uname: seq<byte>, passwd: seq<byte>)
    requires AllTerminated(users)
    ensures ScanDefined(users, uname) && CheckDefined(users, uname, passwd)
  {
  }

  // ---------------------------------------------------------------------------
  // The user listing

  /** A block that starts with the string and its terminator. */
  predicate HoldsString(block: seq<byte>, text: seq<byte>) {
    |text| < |block| && block[..|text|] == text && block[|text|] == 0
  }

  function ListingSize(users: seq<Account>): nat {
    if users == [] then 0
    else
      var n := |users| - 1;
      ListingSize(users[..n]) + 1 + users[n].ulen
  }

  /** What get_all_users stores for one user at offset `at`: the length of the
      name block, then the name and its NUL. */
  predicate Placed(block: seq<byte>, at: nat, a: Account) {
    at + 1 + |a.key| < |block| && block[at] == a.ulen && HoldsString(block[at + 1..], a.key)
  }

  predicate PlacedAt(block: seq<byte>, users: seq<Account>, k: nat)
    requires k < |users|
  {
    Placed(block, ListingSize(users[..k]), users[k])
  }

  predicate AllPlaced(block: seq<byte>, users: seq<Account>) {
    forall k :: 0 <= k < |users| ==> PlacedAt(block, users, k)
  }

  predicate NamesEnd(users: seq<Account>) {
    forall k :: 0 <= k < |users| ==> |users[k].key| < users[k].ulen
  }

  /** One entry for each user, of one byte more than its name block; what follows
      the NUL of a name is arbitrary. */
  predicate IsListing(bytes: seq<byte>, users: seq<Account>) {
    |bytes| == ListingSize(users) && NamesEnd(users) && AllPlaced(bytes, users)
  }

  lemma {:induction false} ListingSizeCons(users: seq<Account>)
    requires users != []
    ensures ListingSize(users) == 1 + users[0].ulen + ListingSize(users[1..])
    decreases |users|
  {
    var n := |users| - 1;
    if n == 0 {
      assert users[..0] == [] && users[1..] == [];
    } else {
      ListingSizeCons(users[..n]);
      assert users[..n][1..] == users[1..][..n - 1];
    }
  }

  lemma {:induction false} SizeMonotone(users: seq<Account>, k: nat)
    requires k <= |users|
    ensures ListingSize(users[..k]) <= ListingSize(users)
    ensures k < |users| ==> ListingSize(users[..k]) + 1 + users[k].ulen <= ListingSize(users)
    decreases |users| - k
  {
    if k < |users| {
      assert users[..k + 1][..k] == users[..k];
      SizeMonotone(users, k + 1);
    } else {
      assert users[..k] == users;
    }
  }

  lemma PlacedWithin(block: seq<byte>, block': seq<byte>, at: nat, a: Account)
    requires Placed(block, at, a) && at + 1 + |a.key| < |block'|
    requires forall j :: at <= j <= at + 1 + |a.key| ==> block'[j] == block[j]
    ensures Placed(block', at, a)
  {
    var n := |a.key|;
    assert block[at + 1..][..n] == block[at + 1..at + 1 + n];
    assert block'[at + 1..][..n] == block'[at + 1..at + 1 + n] == block[at + 1..at + 1 + n];
  }

  predicate PlacedUpTo(block: seq<byte>, users: seq<Account>, n: nat)
    requires n <= |users|
  {
    forall k :: 0 <= k < n ==> PlacedAt(block, users, k)
  }

  /** Stores that lie behind the listing so far, and a larger block, keep it. */
  lemma PlacedIsKept(before: seq<byte>, after: seq<byte>, users: seq<Account>, n: nat)
    requires n <= |users| && NamesEnd(users) && PlacedUpTo(before, users, n) && |before| <= |after|
    requires forall i :: 0 <= i < |before| && i < ListingSize(users[..n]) ==> after[i] == before[i]
    ensures PlacedUpTo(after, users, n)
  {
    forall k | 0 <= k < n ensures PlacedAt(after, users, k) {
      assert PlacedAt(before, users, k);
      SizeMonotone(users[..n], k);
      assert users[..n][..k] == users[..k];
      PlacedWithin(before, after, ListingSize(users[..k]), users[k]);
    }
  }

  /** The stores of all users make a listing of the bytes reported. */
  lemma PlacedIsListing(block: seq<byte>, users: seq<Account>)
    requires AllPlaced(block, users) && NamesEnd(users) && ListingSize(users) <= |block|
    ensures IsListing(block[..ListingSize(users)], users)
  {
    var bytes := block[..ListingSize(users)];
    forall k | 0 <= k < |users| ensures PlacedAt(bytes, users, k) {
      assert PlacedAt(block, users, k);
      SizeMonotone(users, k);
      PlacedWithin(block, bytes, ListingSize(users[..k]), users[k]);
    }
  }

  /** Length-prefixed splitting, as the client reads the reply. */
  function SplitListing(bytes: seq<byte>): seq<seq<byte>>
    decreases |bytes|
  {
    if bytes == [] || |bytes| <= bytes[0] then []
    else
      var n: nat := bytes[0];
      [bytes[1..1 + n]] + SplitListing(bytes[1 + n..])
  }

  lemma PlacedInTail(bytes: seq<byte>, users: seq<Account>, k: nat)
    requires k + 1 < |users| && PlacedAt(bytes, users, k + 1) && 1 + users[0].ulen <= |bytes|
    ensures PlacedAt(bytes[1 + users[0].ulen..], users[1..], k)
  {
    var n, others := 1 + users[0].ulen, users[1..];
    var at := ListingSize(others[..k]);
    ListingSizeCons(users[..k + 1]);
    assert users[..k + 1][1..] == others[..k];
    assert bytes[n + at + 1..] == bytes[n..][at + 1..];
  }

  /** What follows the first entry lists the other users. */
  lemma ListingTail(bytes: seq<byte>, users: seq<Account>)
    requires IsListing(bytes, users) && users != []
    ensures 1 + users[0].ulen <= |bytes| && IsListing(bytes[1 + users[0].ulen..], users[1..])
  {
    ListingSizeCons(users);
    var tail, others := bytes[1 + users[0].ulen..], users[1..];
    forall k | 0 <= k < |others| ensures PlacedAt(tail, others, k) {
      assert PlacedAt(bytes, users, k + 1);
      PlacedInTail(bytes, users, k);
    }
  }

  lemma ListingHead(bytes: seq<byte>, users: seq<Account>)
    requires IsListing(bytes, users) && users != []
    ensures |bytes| > users[0].ulen == bytes[0] && HoldsString(bytes[1..1 + users[0].ulen], users[0].key)
  {
    assert PlacedAt(bytes, users, 0);
    assert users[..0] == [];
    ListingSizeCons(users);
    var n := |users[0].key|;
    assert bytes[1..1 + users[0].ulen][..n] == bytes[1..][..n];
  }

  /** Decoding a listing yields exactly the names, in list order. */
  lemma {:induction false} ListingDecodes(bytes: seq<byte>, users: seq<Account>)
    requires IsListing(bytes, users)
    ensures |SplitListing(bytes)| == |users|
    ensures forall i :: 0 <= i < |users| ==> HoldsString(SplitListing(bytes)[i], users[i].key)
    decreases |users|
  {
    if users != [] {
      var n := 1 + users[0].ulen;
      ListingHead(bytes, users);
      ListingTail(bytes, users);
      ListingDecodes(bytes[n..], users[1..]);
      assert SplitListing(bytes) == [bytes[1..n]] + SplitListing(bytes[n..]);
    }
  }

  // ---------------------------------------------------------------------------
  // The block that get_all_users grows

  const FIRST_CAPACITY := 255

  /** The size of the block after the loop has passed `users`: it is doubled at
      most once for each user. */
  function Capacity(users: seq<Account>): nat {
    if users == [] then FIRST_CAPACITY
    else
      var n := |users| - 1;
      var cont, before := ListingSize(users[..n]), Capacity(users[..n]);
      if cont >= before || cont + users[n].ulen >= before then 2 * before else before
  }

  /** The NUL that strcpy stores for user `k` is the last store of its turn. */
  predicate StoreFits(users: seq<Account>, k: nat)
    requires k < |users|
  {
    ListingSize(users[..k]) + 1 + |users[k].key| < Capacity(users[..k + 1])
  }

  predicate StoresFit(users: seq<Account>) {
    forall k :: 0 <= k < |users| ==> StoreFits(users, k)
  }

  /** A name block of 255 bytes that meets a first block filled to the last byte. */
  predicate Meets(users: seq<Account>, k: nat)
    requires k < |users|
  {
    ListingSize(users[..k]) == FIRST_CAPACITY && users[k].ulen == 255
  }

  predicate Sized(users: seq<Account>) {
    forall i :: 0 <= i < |users| ==> users[i].ulen <= 255
  }

  lemma {:induction false} CapacityShape(users: seq<Account>)
    requires Sized(users)
    ensures var c, s := Capacity(users), ListingSize(users);
            && (c == 255 || c >= 510) && (c == 255 <==> s <= 255)
            && (s <= c || (c == 510 && s == 511))
            && (s > c <==> users != [] && Meets(users, |users| - 1))
  {
    if users != [] {
      CapacityShape(users[..|users| - 1]);
    }
  }

  /** The block covers the bytes reported, for every registry, exactly unless the
      last user's 255-byte name block meets a full first block. */
  lemma BlockCoversExactly(users: seq<Account>)
    requires Sized(users)
    ensures ListingSize(users) <= Capacity(users) <==> users == [] || !Meets(users, |users| - 1)
  {
    CapacityShape(users);
  }

  lemma StoreFitsExactly(users: seq<Account>, k: nat)
    requires Sized(users) && k < |users| && |users[k].key| < users[k].ulen
    ensures StoreFits(users, k) <==> !(Meets(users, k) && |users[k].key| == 254)
  {
    var upTo := users[..k + 1];
    CapacityShape(upTo);
    assert upTo[..k] == users[..k];
  }

  /** Every store is inside the block exactly unless a 254-character name meets a
      full first block. */
  lemma StoresFitExactly(users: seq<Account>)
    requires Sized(users) && NamesEnd(users)
    ensures StoresFit(users) <==> forall k :: 0 <= k < |users| ==> !(Meets(users, k) && |users[k].key| == 254)
  {
    forall k | 0 <= k < |users| ensures StoreFits(users, k) <==> !(Meets(users, k) && |users[k].key| == 254) {
      StoreFitsExactly(users, k);
    }
  }

  /** get_all_users, or its caller's copy of the result, leaves the block. */
  predicate Overfills(users: seq<Account>) {
    exists k :: 0 <= k < |users| && Meets(users, k) && (|users[k].key| == 254 || k == |users| - 1)
  }

  /** Every name has its NUL, and the listing stays inside its block. */
  predicate ListingDefined(users: seq<Account>) {
    NamesEnd(users) && !Overfills(users)
  }

  lemma ListingDefinedExactly(users: seq<Account>)
    requires Sized(users) && NamesEnd(users)
    ensures ListingDefined(users) <==> StoresFit(users) && ListingSize(users) <= Capacity(users)
  {
    StoresFitExactly(users);
    BlockCoversExactly(users);
  }

  function Letters(n: nat): (s: seq<byte>)
    ensures |s| == n && 0 !in s
  {
    seq(n, _ => 65)
  }

  function Crowded(name: nat): seq<Account> {
    [Account(Letters(125), 126, [65], 2, false), Account(Letters(126), 127, [65], 2, false),
     Account(Letters(name), 255, [65], 2, false)]
  }

  /** Two registries that overfill: with a 254-character name a store leaves the
      block; with a shorter one in a 255-byte block only the caller's copy does. */
  lemma OverfillExamples()
    ensures Valid(Crowded(254)) && !StoresFit(Crowded(254)) && Overfills(Crowded(254))
    ensures Valid(Crowded(10)) && StoresFit(Crowded(10)) && Overfills(Crowded(10))
    ensures ListingSize(Crowded(10)) == 511 && Capacity(Crowded(10)) == 510
  {
    CrowdedMeets(254);
    CrowdedMeets(10);
    StoresFitExactly(Crowded(254));
    StoresFitExactly(Crowded(10));
    CapacityShape(Crowded(10));
    assert Crowded(254)[2].key == Letters(254) && Crowded(10)[2].key == Letters(10);
  }

  lemma CrowdedMeets(name: nat)
    requires name <= 254 && name != 125 && name != 126
    ensures Valid(Crowded(name)) && Meets(Crowded(name), 2) && ListingSize(Crowded(name)) == 511
    ensures !Meets(Crowded(name), 0) && !Meets(Crowded(name), 1)
  {
    var users := Crowded(name);
    assert |users[0].key| == 125 && |users[1].key| == 126 && |users[2].key| == name;
    assert users[..0] == [] && users[..1][..0] == [] && users[..2][..1] == users[..1] && users[..3][..2] == users[..2];
    assert ListingSize(users[..1]) == 127;
    assert ListingSize(users[..2]) == 255;
    assert users[..3] == users;
  }
}
