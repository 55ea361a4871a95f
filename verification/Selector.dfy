/** The descriptor multiplexer of src/selector.c as a value: the item table, the
    two prototype bit sets given to select, and the largest descriptor in use. */
module Selector {
  import opened Io

  /** FD_SETSIZE */
  const ITEMS_MAX_SIZE := 1024
  const FD_UNUSED := -1

  datatype Status = SUCCESS | ENOMEM | MAXFD | IARGS | FDINUSE

  /** `closes` tells whether the handler has a handle_close callback. */
  datatype Item = Item(fd: int, interest: Ops, closes: bool) {
    predicate Used() {
      fd != FD_UNUSED
    }
  }

  const UNUSED := Item(FD_UNUSED, NOOP, false)

  datatype Selector = Selector(fds: seq<Item>, maxFd: int, masterR: set<int>, masterW: set<int>)

  predicate InvalidFd(fd: int) {
    fd < 0 || fd >= ITEMS_MAX_SIZE
  }

  // ---------------------------------------------------------------------------
  // Capacity

  function Pow2(k: nat): (r: nat)
    ensures r > 0
  {
    if k == 0 then 1 else 2 * Pow2(k - 1)
  }

  /** 2^k is the least power of two above n. */
  ghost predicate LeastAbove(k: nat, n: nat) {
    n < Pow2(k) && (k == 0 || Pow2(k - 1) <= n)
  }

  function Capped(size: nat): nat {
    if size > ITEMS_MAX_SIZE then ITEMS_MAX_SIZE else size
  }

  /** How often n can be shifted right before it is 0. */
  function Bits(n: nat): nat {
    if n == 0 then 0 else 1 + Bits(n / 2)
  }

  function CapacityFor(n: nat): nat {
    Capped(Pow2(Bits(n))) + 1
  }

  /** tmp is n shifted right by `bits`. */
  ghost predicate Shifted(tmp: nat, bits: nat, n: nat) {
    && tmp * Pow2(bits) <= n < tmp * Pow2(bits) + Pow2(bits) && (tmp == 0 ==> LeastAbove(bits, n))
    && bits + Bits(tmp) == Bits(n)
  }

  lemma HalveBounds(h: nat, odd: bool, p: nat, n: nat)
    requires var tmp := if odd then 2 * h + 1 else 2 * h; tmp * p <= n < tmp * p + p
    ensures h * (2 * p) <= n < h * (2 * p) + 2 * p
  {
    var hp := h * p;
    assert h * (2 * p) == 2 * hp && (2 * h) * p == 2 * hp && (2 * h + 1) * p == 2 * hp + p;
  }

  lemma ShiftOnce(tmp: nat, bits: nat, n: nat)
    requires tmp > 0 && Shifted(tmp, bits, n)
    ensures Shifted(tmp / 2, bits + 1, n)
  {
    HalveBounds(tmp / 2, tmp % 2 == 1, Pow2(bits), n);
  }

  /** next_capacity: one more than the least power of two above n, capped. */
  method NextCapacity(n: nat) returns (size: nat)
    ensures exists k :: LeastAbove(k, n) && size == Capped(Pow2(k)) + 1
    ensures size == CapacityFor(n) && (n <= ITEMS_MAX_SIZE ==> n < size <= ITEMS_MAX_SIZE + 1)
  {
    var bits := 0;
    var tmp := n;
    while tmp != 0
      invariant Shifted(tmp, bits, n)
    {
      ShiftOnce(tmp, bits, n);
      tmp, bits := tmp / 2, bits + 1;
    }
    assert LeastAbove(bits, n);
    size := Capped(Pow2(bits)) + 1;
  }

  /** The least power of two is unique, so next_capacity is a function of n. */
  lemma {:induction false} LeastAboveUnique(j: nat, k: nat, n: nat)
    requires LeastAbove(j, n) && LeastAbove(k, n)
    ensures j == k
  {
    if j < k {
      Pow2Monotone(j, k - 1);
    } else if k < j {
      Pow2Monotone(k, j - 1);
    }
  }

  lemma {:induction false} Pow2Monotone(j: nat, k: nat)
    requires j <= k
    ensures Pow2(j) <= Pow2(k)
    decreases k - j
  {
    if j < k {
      Pow2Monotone(j, k - 1);
    }
  }

  lemma {:induction false} BitsFrom(tmp: nat, bits: nat, n: nat)
    requires Shifted(tmp, bits, n)
    ensures LeastAbove(Bits(n), n)
    decreases tmp
  {
    if tmp > 0 {
      ShiftOnce(tmp, bits, n);
      BitsFrom(tmp / 2, bits + 1, n);
    }
  }

  /** The new size always covers n, up to the platform's limit. */
  lemma CapacityCovers(n: nat)
    ensures LeastAbove(Bits(n), n)
    ensures n <= ITEMS_MAX_SIZE ==> n < CapacityFor(n) <= ITEMS_MAX_SIZE + 1
  {
    BitsFrom(n, 0, n);
  }

  // ---------------------------------------------------------------------------
  // Operations

  /** items_update_fdset_for_fd. */
  function UpdateSets(s: Selector, item: Item): Selector {
    s.(masterR := if item.Used() && item.interest.read then s.masterR + {item.fd} else s.masterR - {item.fd},
       masterW := if item.Used() && item.interest.write then s.masterW + {item.fd} else s.masterW - {item.fd})
  }

  /** items_max_fd over the first `n` items. */
  function MaxUsed(fds: seq<Item>, n: nat): int
    requires n <= |fds|
  {
    if n == 0 then 0
    else
      var m := MaxUsed(fds, n - 1);
      if fds[n - 1].Used() && fds[n - 1].fd > m then fds[n - 1].fd else m
  }

  /** selector_register once the table is large enough. */
  function Register(s: Selector, fd: int, interest: Ops, closes: bool): (Status, Selector)
    requires 0 <= fd < |s.fds|
  {
    if s.fds[fd].Used() then (FDINUSE, s)
    else
      var item := Item(fd, interest, closes);
      (SUCCESS, UpdateSets(s.(fds := s.fds[fd := item], maxFd := if fd > s.maxFd then fd else s.maxFd), item))
  }

  function Unregister(s: Selector, fd: int): (Status, Selector)
    requires 0 <= fd < |s.fds| && 0 <= s.maxFd < |s.fds|
  {
    if !s.fds[fd].Used() then (IARGS, s)
    else
      var t := UpdateSets(s, s.fds[fd].(interest := NOOP));
      var fds := s.fds[fd := UNUSED];
      (SUCCESS, t.(fds := fds, maxFd := MaxUsed(fds, s.maxFd + 1)))
  }

  function SetInterest(s: Selector, fd: int, interest: Ops): (Status, Selector)
    requires 0 <= fd < |s.fds|
  {
    if !s.fds[fd].Used() then (IARGS, s)
    else
      var item := s.fds[fd].(interest := interest);
      (SUCCESS, UpdateSets(s.(fds := s.fds[fd := item]), item))
  }

  // ---------------------------------------------------------------------------
  // Coherence

  predicate UsedAt(s: Selector, fd: int) {
    0 <= fd < |s.fds| && s.fds[fd].Used()
  }

  /** The four parts of the selector tell the same story. */
  ghost predicate Coherent(s: Selector) {
    && |s.fds| <= ITEMS_MAX_SIZE + 1
    && (forall i :: UsedAt(s, i) ==> s.fds[i].fd == i && i < ITEMS_MAX_SIZE)
    && (forall i :: 0 <= i < |s.fds| && !s.fds[i].Used() ==> s.fds[i].interest == NOOP)
    && (forall i :: i in s.masterR <==> UsedAt(s, i) && s.fds[i].interest.read)
    && (forall i :: i in s.masterW <==> UsedAt(s, i) && s.fds[i].interest.write)
    && IsMaxFd(s)
  }

  /** max_fd is the largest descriptor in use, or 0. */
  ghost predicate IsMaxFd(s: Selector) {
    && (s.maxFd == 0 || UsedAt(s, s.maxFd))
    && (forall i :: UsedAt(s, i) ==> i <= s.maxFd)
    && 0 <= s.maxFd < |s.fds|
  }

  lemma {:induction false} MaxUsedIsMax(fds: seq<Item>, n: nat)
    requires n <= |fds| && forall i :: 0 <= i < |fds| && fds[i].Used() ==> fds[i].fd == i
    ensures var m := MaxUsed(fds, n);
            && 0 <= m && (m == 0 || (m < n && fds[m].Used()))
            && forall i :: 0 <= i < n && fds[i].Used() ==> i <= m
  {
    if n > 0 {
      MaxUsedIsMax(fds, n - 1);
    }
  }

  lemma RegisterKeepsCoherent(s: Selector, fd: int, interest: Ops, closes: bool)
    requires Coherent(s) && 0 <= fd < |s.fds| && fd < ITEMS_MAX_SIZE
    ensures Coherent(Register(s, fd, interest, closes).1)
  {
    var t := Register(s, fd, interest, closes).1;
    assert forall i :: UsedAt(t, i) ==> i == fd || UsedAt(s, i);
    assert forall i :: UsedAt(s, i) ==> UsedAt(t, i);
  }

  lemma SetInterestKeepsCoherent(s: Selector, fd: int, interest: Ops)
    requires Coherent(s) && 0 <= fd < |s.fds|
    ensures Coherent(SetInterest(s, fd, interest).1)
  {
    var t := SetInterest(s, fd, interest).1;
    assert forall i :: UsedAt(t, i) <==> UsedAt(s, i);
  }

  lemma UnregisterKeepsCoherent(s: Selector, fd: int)
    requires Coherent(s) && 0 <= fd < |s.fds|
    ensures Coherent(Unregister(s, fd).1)
  {
    var t := Unregister(s, fd).1;
    if s.fds[fd].Used() {
      assert UsedAt(s, fd);
      assert forall i :: UsedAt(t, i) <==> UsedAt(s, i) && i != fd;
      assert forall i :: 0 <= i < |t.fds| && t.fds[i].Used() ==> UsedAt(t, i);
      MaxUsedIsMax(t.fds, s.maxFd + 1);
    }
  }

  // ---------------------------------------------------------------------------
  // Growth

  function UnusedItems(k: nat): seq<Item> {
    seq(k, _ => UNUSED)
  }

  /** ensure_capacity; `alloc` tells whether calloc or realloc succeeds. */
  function EnsureCapacity(s: Selector, n: nat, alloc: bool): (r: (Status, Selector))
    ensures r.0 == SUCCESS ==> n < |r.1.fds|
  {
    if n < |s.fds| then (SUCCESS, s)
    else if n > ITEMS_MAX_SIZE then (MAXFD, s)
    else if !alloc then (ENOMEM, s)
    else
      CapacityCovers(n);
      (SUCCESS, s.(fds := s.fds + UnusedItems(CapacityFor(n) - |s.fds|)))
  }

  /** A successful growth covers n within the limit, keeps every item, marks all
      new ones unused; a failed one changes nothing. It fails exactly beyond the
      platform's limit or without memory. */
  lemma GrowthKeepsItems(s: Selector, n: nat, alloc: bool)
    requires |s.fds| <= ITEMS_MAX_SIZE + 1
    ensures var (st, t) := EnsureCapacity(s, n, alloc);
            && (st == SUCCESS <==> n < |s.fds| || (n <= ITEMS_MAX_SIZE && alloc))
            && (st == SUCCESS ==> n < |t.fds| <= ITEMS_MAX_SIZE + 1)
            && (st != SUCCESS ==> t == s)
            && s.fds <= t.fds && (forall i :: |s.fds| <= i < |t.fds| ==> !t.fds[i].Used())
            && (forall i :: UsedAt(t, i) <==> UsedAt(s, i))
            && (Coherent(s) ==> Coherent(t))
  {
    CapacityCovers(n);
  }

  // ---------------------------------------------------------------------------
  // Any sequence of calls

  datatype Op =
    | OpRegister(fd: int, handler: bool, interest: Ops, closes: bool, alloc: bool)
    | OpUnregister(fd: int)
    | OpSetInterest(fd: int, interest: Ops)

  /** The call touches no item outside the table: register grows only for
      fd > fd_size, the other two never look at fd_size. */
  predicate InBounds(s: Selector, op: Op) {
    match op
    case OpRegister(fd, handler, _, _, _) => InvalidFd(fd) || !handler || fd != |s.fds|
    case OpUnregister(fd) => InvalidFd(fd) || fd < |s.fds|
    case OpSetInterest(fd, _) => InvalidFd(fd) || fd < |s.fds|
  }

  function Do(s: Selector, op: Op): (Status, Selector)
    requires InBounds(s, op) && 0 <= s.maxFd < |s.fds|
  {
    match op
    case OpRegister(fd, handler, interest, closes, alloc) =>
      if InvalidFd(fd) || !handler then (IARGS, s)
      else
        var (st, t) := if fd > |s.fds| then EnsureCapacity(s, fd, alloc) else (SUCCESS, s);
        if st != SUCCESS then (st, s) else Register(t, fd, interest, closes)
    case OpUnregister(fd) => if InvalidFd(fd) then (IARGS, s) else Unregister(s, fd)
    case OpSetInterest(fd, interest) => if InvalidFd(fd) then (IARGS, s) else SetInterest(s, fd, interest)
  }

  /** Every legal descriptor can be registered safely exactly when the table
      already covers them all, as the server's initial size of 1024 makes it. */
  lemma RegisterSafeIff(s: Selector)
    ensures (forall fd, interest, closes, alloc :: InBounds(s, OpRegister(fd, true, interest, closes, alloc)))
            <==> |s.fds| >= ITEMS_MAX_SIZE
    ensures CapacityFor(1024) == 1025
  {
    if |s.fds| < ITEMS_MAX_SIZE {
      assert !InBounds(s, OpRegister(|s.fds|, true, NOOP, false, true));
    }
    CapacityCovers(1024);
    assert Pow2(10) == 1024 by { assert Pow2(5) == 32; }
    if Bits(1024) <= 10 {
      Pow2Monotone(Bits(1024), 10);
    }
  }

  lemma DoKeepsCoherent(s: Selector, op: Op)
    requires Coherent(s) && InBounds(s, op)
    ensures Coherent(Do(s, op).1) && |Do(s, op).1.fds| >= |s.fds|
  {
    match op
    case OpRegister(fd, handler, interest, closes, alloc) =>
      if !InvalidFd(fd) && handler {
        GrowthKeepsItems(s, fd, alloc);
        var (st, t) := if fd > |s.fds| then EnsureCapacity(s, fd, alloc) else (SUCCESS, s);
        if st == SUCCESS {
          RegisterKeepsCoherent(t, fd, interest, closes);
        }
      }
    case OpUnregister(fd) =>
      if !InvalidFd(fd) {
        UnregisterKeepsCoherent(s, fd);
      }
    case OpSetInterest(fd, interest) =>
      if !InvalidFd(fd) {
        SetInterestKeepsCoherent(s, fd, interest);
      }
  }

  // ---------------------------------------------------------------------------
  // What each call changes

  /** Every descriptor but `fd` has the same item and the same memberships. */
  ghost predicate Untouched(s: Selector, t: Selector, fd: int) {
    && |s.fds| <= |t.fds|
    && (forall i :: 0 <= i < |s.fds| && i != fd ==> t.fds[i] == s.fds[i])
    && (forall i :: |s.fds| <= i < |t.fds| && i != fd ==> !t.fds[i].Used())
    && (forall i :: i != fd ==> (i in t.masterR <==> i in s.masterR) && (i in t.masterW <==> i in s.masterW))
  }

  /** `fd` is in use for `interest`, and watched for exactly that. */
  ghost predicate Watches(t: Selector, fd: int, interest: Ops, closes: bool) {
    && UsedAt(t, fd) && t.fds[fd].fd == fd && t.fds[fd].interest == interest && t.fds[fd].closes == closes
    && (fd in t.masterR <==> interest.read) && (fd in t.masterW <==> interest.write)
  }

  /** selector_set_interest succeeds exactly for a descriptor in use, which is then
      watched for the new interest; nothing else changes. */
  lemma SetInterestEffect(s: Selector, fd: int, interest: Ops)
    requires Coherent(s) && InBounds(s, OpSetInterest(fd, interest))
    ensures var (st, t) := Do(s, OpSetInterest(fd, interest));
            if !UsedAt(s, fd) then st == IARGS && t == s
            else st == SUCCESS && Watches(t, fd, interest, s.fds[fd].closes) && Untouched(s, t, fd)
                 && |t.fds| == |s.fds| && t.maxFd == s.maxFd
  {
  }

  /** selector_register succeeds exactly for a legal descriptor with a handler that
      is not in use and fits or can be made to fit; it is then watched as asked, and
      nothing else changes. Each failure has its own status and changes nothing. */
  lemma RegisterEffect(s: Selector, fd: int, handler: bool, interest: Ops, closes: bool, alloc: bool)
    requires Coherent(s) && InBounds(s, OpRegister(fd, handler, interest, closes, alloc))
    ensures var (st, t) := Do(s, OpRegister(fd, handler, interest, closes, alloc));
            && (st != SUCCESS ==> t == s)
            && (if fd < 0 || fd >= 1024 || !handler then st == IARGS
                else if UsedAt(s, fd) then st == FDINUSE
                else if fd > |s.fds| && !alloc then st == ENOMEM
                else st == SUCCESS && Watches(t, fd, interest, closes) && Untouched(s, t, fd)
                     && t.maxFd == (if fd > s.maxFd then fd else s.maxFd))
  {
    if !InvalidFd(fd) && handler {
      GrowthKeepsItems(s, fd, alloc);
    }
  }

  /** selector_unregister_fd succeeds exactly for a descriptor in use, which is then
      unused and not watched; nothing else changes. */
  lemma UnregisterEffect(s: Selector, fd: int)
    requires Coherent(s) && InBounds(s, OpUnregister(fd))
    ensures var (st, t) := Do(s, OpUnregister(fd));
            if !UsedAt(s, fd) then st == IARGS && t == s
            else st == SUCCESS && !UsedAt(t, fd) && fd !in t.masterR && fd !in t.masterW && Untouched(s, t, fd)
                 && |t.fds| == |s.fds|
  {
  }

  lemma DoTouchesOne(s: Selector, op: Op)
    requires Coherent(s) && InBounds(s, op)
    ensures Untouched(s, Do(s, op).1, op.fd)
  {
    match op
    case OpRegister(fd, handler, interest, closes, alloc) => RegisterEffect(s, fd, handler, interest, closes, alloc);
    case OpUnregister(fd) => UnregisterEffect(s, fd);
    case OpSetInterest(fd, interest) => SetInterestEffect(s, fd, interest);
  }

  ghost predicate AllInBounds(s: Selector, ops: seq<Op>)
    decreases |ops|
  {
    ops == [] || (Coherent(s) && InBounds(s, ops[0]) && AllInBounds(Do(s, ops[0]).1, ops[1..]))
  }

  ghost function DoAll(s: Selector, ops: seq<Op>): Selector
    requires AllInBounds(s, ops)
    decreases |ops|
  {
    if ops == [] then s else DoAll(Do(s, ops[0]).1, ops[1..])
  }

  /** The tables agree after every sequence of calls. */
  lemma {:induction false} CoherentAlways(s: Selector, ops: seq<Op>)
    requires Coherent(s) && AllInBounds(s, ops)
    ensures Coherent(DoAll(s, ops))
    decreases |ops|
  {
    if ops != [] {
      DoKeepsCoherent(s, ops[0]);
      CoherentAlways(Do(s, ops[0]).1, ops[1..]);
    }
  }

  /** With the server's table no sequence of calls leaves the table. */
  lemma {:induction false} RoomyNeverOutOfBounds(s: Selector, ops: seq<Op>)
    requires Coherent(s) && |s.fds| >= ITEMS_MAX_SIZE
    ensures AllInBounds(s, ops)
    decreases |ops|
  {
    if ops != [] {
      DoKeepsCoherent(s, ops[0]);
      RoomyNeverOutOfBounds(Do(s, ops[0]).1, ops[1..]);
    }
  }

  // ---------------------------------------------------------------------------
  // Registrations and close callbacks balance

  function CountUsed(fds: seq<Item>): nat {
    if fds == [] then 0 else CountUsed(fds[..|fds| - 1]) + if fds[|fds| - 1].Used() then 1 else 0
  }

  lemma {:induction false} CountUpdate(fds: seq<Item>, i: nat, item: Item)
    requires i < |fds|
    ensures CountUsed(fds[i := item]) ==
            CountUsed(fds) - (if fds[i].Used() then 1 else 0) + (if item.Used() then 1 else 0)
  {
    var n, fds' := |fds| - 1, fds[i := item];
    if i == n {
      assert fds'[..n] == fds[..n];
    } else {
      CountUpdate(fds[..n], i, item);
      assert fds'[..n] == fds[..n][i := item];
    }
  }

  /** Items in use whose handler has a handle_close callback. */
  function CountClosing(fds: seq<Item>): nat {
    if fds == [] then 0
    else CountClosing(fds[..|fds| - 1]) + if fds[|fds| - 1].Used() && fds[|fds| - 1].closes then 1 else 0
  }

  lemma {:induction false} ClosingRemoved(fds: seq<Item>, i: nat)
    requires i < |fds|
    ensures CountClosing(fds[i := UNUSED]) + (if fds[i].Used() && fds[i].closes then 1 else 0) == CountClosing(fds)
  {
    var n, fds' := |fds| - 1, fds[i := UNUSED];
    if i == n {
      assert fds'[..n] == fds[..n];
    } else {
      ClosingRemoved(fds[..n], i);
      assert fds'[..n] == fds[..n][i := UNUSED];
    }
  }

  lemma {:induction false} NoneClosing(fds: seq<Item>)
    requires forall i :: 0 <= i < |fds| ==> !fds[i].Used()
    ensures CountClosing(fds) == 0
  {
    if fds != [] {
      NoneClosing(fds[..|fds| - 1]);
    }
  }

  lemma {:induction false} CountUnused(fds: seq<Item>, k: nat)
    ensures CountUsed(fds + UnusedItems(k)) == CountUsed(fds)
  {
    var all := fds + UnusedItems(k);
    if k == 0 {
      assert all == fds;
    } else {
      CountUnused(fds, k - 1);
      assert all[..|all| - 1] == fds + UnusedItems(k - 1);
    }
  }

  lemma NoneWatched(s: Selector)
    requires Coherent(s) && forall i :: 0 <= i < |s.fds| ==> !s.fds[i].Used()
    ensures s.masterR == {} && s.masterW == {}
  {
    forall i ensures i !in s.masterR && i !in s.masterW {
      assert !UsedAt(s, i);
    }
  }

  function RegisteredBy(s: Selector, op: Op): nat
    requires InBounds(s, op) && 0 <= s.maxFd < |s.fds|
  {
    if op.OpRegister? && Do(s, op).0 == SUCCESS then 1 else 0
  }

  /** selector_unregister_fd calls handle_close when the handler has one. */
  function ClosedBy(s: Selector, op: Op): nat
    requires InBounds(s, op) && 0 <= s.maxFd < |s.fds|
  {
    if op.OpUnregister? && !InvalidFd(op.fd) && s.fds[op.fd].Used() && s.fds[op.fd].closes then 1 else 0
  }

  ghost function AllRegistered(s: Selector, ops: seq<Op>): nat
    requires AllInBounds(s, ops)
    decreases |ops|
  {
    if ops == [] then 0 else RegisteredBy(s, ops[0]) + AllRegistered(Do(s, ops[0]).1, ops[1..])
  }

  ghost function AllClosed(s: Selector, ops: seq<Op>): nat
    requires AllInBounds(s, ops)
    decreases |ops|
  {
    if ops == [] then 0 else ClosedBy(s, ops[0]) + AllClosed(Do(s, ops[0]).1, ops[1..])
  }

  predicate AllClose(s: Selector) {
    forall i :: 0 <= i < |s.fds| && s.fds[i].Used() ==> s.fds[i].closes
  }

  lemma GrowthCount(s: Selector, n: nat, alloc: bool)
    ensures CountUsed(EnsureCapacity(s, n, alloc).1.fds) == CountUsed(s.fds)
  {
    CapacityCovers(n);
    if |s.fds| <= n <= ITEMS_MAX_SIZE && alloc {
      CountUnused(s.fds, CapacityFor(n) - |s.fds|);
    }
  }

  lemma RegisterBalances(s: Selector, op: Op)
    requires Coherent(s) && InBounds(s, op) && AllClose(s) && op.OpRegister? && op.closes
    ensures var t := Do(s, op).1; AllClose(t) && CountUsed(t.fds) == CountUsed(s.fds) + RegisteredBy(s, op)
  {
    if !InvalidFd(op.fd) && op.handler {
      GrowthKeepsItems(s, op.fd, op.alloc);
      var (st, t) := if op.fd > |s.fds| then EnsureCapacity(s, op.fd, op.alloc) else (SUCCESS, s);
      if st == SUCCESS {
        GrowthCount(s, op.fd, op.alloc);
        CountUpdate(t.fds, op.fd, Item(op.fd, op.interest, op.closes));
      }
    }
  }

  lemma DoBalances(s: Selector, op: Op)
    requires Coherent(s) && InBounds(s, op) && AllClose(s) && (op.OpRegister? ==> op.closes)
    ensures var t := Do(s, op).1;
            AllClose(t) && CountUsed(t.fds) + ClosedBy(s, op) == CountUsed(s.fds) + RegisteredBy(s, op)
  {
    match op
    case OpRegister(_, _, _, _, _) => RegisterBalances(s, op);
    case OpUnregister(fd) =>
      if !InvalidFd(fd) {
        CountUpdate(s.fds, fd, UNUSED);
      }
    case OpSetInterest(fd, interest) =>
      if !InvalidFd(fd) {
        CountUpdate(s.fds, fd, s.fds[fd].(interest := interest));
      }
  }

  /** When every handler has a close callback: successful registrations are
      exactly the close callbacks plus the items still in use. */
  lemma {:induction false} RegistrationsBalance(s: Selector, ops: seq<Op>)
    requires Coherent(s) && AllInBounds(s, ops) && AllClose(s)
    requires forall i :: 0 <= i < |ops| && ops[i].OpRegister? ==> ops[i].closes
    ensures CountUsed(DoAll(s, ops).fds) + AllClosed(s, ops) == CountUsed(s.fds) + AllRegistered(s, ops)
    decreases |ops|
  {
    if ops != [] {
      DoKeepsCoherent(s, ops[0]);
      DoBalances(s, ops[0]);
      RegistrationsBalance(Do(s, ops[0]).1, ops[1..]);
    }
  }

  // ---------------------------------------------------------------------------
  // handle_iteration

  /** The calls that the handler of a descriptor makes, given the selector it finds. */
  type Handlers = (Selector, int, bool) -> seq<Op>

  datatype Fired = Fired(fd: int, read: bool)

  ghost predicate Serving(s: Selector) {
    Coherent(s) && |s.fds| >= ITEMS_MAX_SIZE
  }

  ghost function AfterHandler(s: Selector, fd: int, read: bool, act: Handlers): (t: Selector)
    requires Serving(s)
    ensures Serving(t)
  {
    RoomyNeverOutOfBounds(s, act(s, fd, read));
    CoherentAlways(s, act(s, fd, read));
    NeverShrinks(s, act(s, fd, read));
    DoAll(s, act(s, fd, read))
  }

  lemma {:induction false} NeverShrinks(s: Selector, ops: seq<Op>)
    requires Coherent(s) && AllInBounds(s, ops)
    ensures |DoAll(s, ops).fds| >= |s.fds|
    decreases |ops|
  {
    if ops != [] {
      DoKeepsCoherent(s, ops[0]);
      NeverShrinks(Do(s, ops[0]).1, ops[1..]);
    }
  }

  /** One item: the read handler if ready and asked for, then the write handler
      if ready and still asked for. */
  ghost function ServeItem(s: Selector, i: nat, readyR: set<int>, readyW: set<int>, act: Handlers)
    : (r: (Selector, seq<Fired>))
    requires Serving(s)
    ensures Serving(r.0)
  {
    if !UsedAt(s, i) then (s, [])
    else
      var toRead := i in readyR && s.fds[i].interest.read;
      var t := if toRead then AfterHandler(s, i, true, act) else s;
      var toWrite := i in readyW && i < |t.fds| && t.fds[i].interest.write;
      (if toWrite then AfterHandler(t, i, false, act) else t,
       (if toRead then [Fired(i, true)] else []) + if toWrite then [Fired(i, false)] else [])
  }

  ghost function Iterate(s: Selector, i: nat, n: int, readyR: set<int>, readyW: set<int>, act: Handlers)
    : (r: (Selector, seq<Fired>))
    requires Serving(s)
    ensures Serving(r.0)
    decreases n - i
  {
    if i > n then (s, [])
    else
      var (t, fired) := ServeItem(s, i, readyR, readyW, act);
      var (u, more) := Iterate(t, i + 1, n, readyR, readyW, act);
      (u, fired + more)
  }

  /** Calls made for descriptors `from` to `to`, in descriptor order, each one
      reported by select, and each descriptor at most once for reading and then
      once for writing. */
  ghost predicate InOrder(fired: seq<Fired>, from: int, to: int, readyR: set<int>, readyW: set<int>) {
    && (forall k :: 0 <= k < |fired| ==>
          from <= fired[k].fd <= to && fired[k].fd in (if fired[k].read then readyR else readyW))
    && (forall j, k :: 0 <= j < k < |fired| ==>
          fired[j].fd < fired[k].fd || (fired[j].fd == fired[k].fd && fired[j].read && !fired[k].read))
  }

  lemma ServeInOrder(s: Selector, i: nat, readyR: set<int>, readyW: set<int>, act: Handlers)
    requires Serving(s)
    ensures InOrder(ServeItem(s, i, readyR, readyW, act).1, i, i, readyR, readyW)
  {
  }

  lemma JoinInOrder(a: seq<Fired>, b: seq<Fired>, i: int, to: int, readyR: set<int>, readyW: set<int>)
    requires i <= to && InOrder(a, i, i, readyR, readyW) && InOrder(b, i + 1, to, readyR, readyW)
    ensures InOrder(a + b, i, to, readyR, readyW)
  {
  }

  /** Whatever the handlers do to the selector, one iteration keeps it coherent
      and makes its calls in order. */
  lemma {:induction false} IterationSound(s: Selector, i: nat, n: int, readyR: set<int>, readyW: set<int>,
                                          act: Handlers)
    requires Serving(s)
    ensures var (t, fired) := Iterate(s, i, n, readyR, readyW, act);
            Coherent(t) && InOrder(fired, i, n, readyR, readyW)
    decreases n - i
  {
    if i <= n {
      var (t, fired) := ServeItem(s, i, readyR, readyW, act);
      ServeInOrder(s, i, readyR, readyW, act);
      IterationSound(t, i + 1, n, readyR, readyW, act);
      JoinInOrder(fired, Iterate(t, i + 1, n, readyR, readyW, act).1, i, n, readyR, readyW);
    }
  }

  /** One item is served exactly: its read handler is called if and only if select
      reported it and it is watched for reading, its write handler if and only if
      select reported it and it is still watched for writing then; the selector is
      left as those handlers' calls leave it. */
  lemma ServesExactly(s: Selector, i: nat, readyR: set<int>, readyW: set<int>, act: Handlers)
    requires Serving(s)
    ensures var (t, fired) := ServeItem(s, i, readyR, readyW, act);
            var u := if i in readyR * s.masterR then AfterHandler(s, i, true, act) else s;
            && (Fired(i, true) in fired <==> i in readyR * s.masterR)
            && (Fired(i, false) in fired <==> UsedAt(s, i) && i in readyW * u.masterW)
            && t == (if Fired(i, false) in fired then AfterHandler(u, i, false, act) else u)
  {
  }

  lemma AfterHandlerIs(s: Selector, fd: int, read: bool, act: Handlers)
    requires Serving(s)
    ensures AllInBounds(s, act(s, fd, read)) && AfterHandler(s, fd, read, act) == DoAll(s, act(s, fd, read))
  {
    RoomyNeverOutOfBounds(s, act(s, fd, read));
  }

  /** The handlers call the selector only for the descriptor they serve. */
  ghost predicate OwnOnly(act: Handlers) {
    forall s: Selector, fd: int, read: bool, k: int ::
      0 <= k < |act(s, fd, read)| ==> act(s, fd, read)[k].fd == fd
  }

  lemma {:induction false} DoAllTouchesOne(s: Selector, ops: seq<Op>, fd: int)
    requires Coherent(s) && AllInBounds(s, ops) && forall k :: 0 <= k < |ops| ==> ops[k].fd == fd
    ensures Untouched(s, DoAll(s, ops), fd)
    decreases |ops|
  {
    if ops != [] {
      var t := Do(s, ops[0]).1;
      DoTouchesOne(s, ops[0]);
      DoKeepsCoherent(s, ops[0]);
      DoAllTouchesOne(t, ops[1..], fd);
      UntouchedTwice(s, t, DoAll(s, ops), fd);
    }
  }

  lemma UntouchedTwice(s: Selector, t: Selector, u: Selector, fd: int)
    requires Untouched(s, t, fd) && Untouched(t, u, fd)
    ensures Untouched(s, u, fd)
  {
  }

  lemma HandlerTouchesOne(s: Selector, i: nat, read: bool, act: Handlers)
    requires Serving(s) && OwnOnly(act)
    ensures Untouched(s, AfterHandler(s, i, read, act), i)
  {
    AfterHandlerIs(s, i, read, act);
    DoAllTouchesOne(s, act(s, i, read), i);
  }

  lemma ServeTouchesOne(s: Selector, i: nat, readyR: set<int>, readyW: set<int>, act: Handlers)
    requires Serving(s) && OwnOnly(act)
    ensures Untouched(s, ServeItem(s, i, readyR, readyW, act).0, i)
  {
    ServesExactly(s, i, readyR, readyW, act);
    var u := if i in readyR * s.masterR then AfterHandler(s, i, true, act) else s;
    HandlerTouchesOne(s, i, true, act);
    HandlerTouchesOne(u, i, false, act);
    UntouchedTwice(s, u, AfterHandler(u, i, false, act), i);
  }

  /** No ready descriptor is forgotten: with handlers that call the selector only
      for their own descriptor, an iteration calls exactly the read handlers that
      select reported and that are watched, and exactly such write handlers of the
      descriptors whose read handler is not called. */
  lemma {:induction false} IterationComplete(s: Selector, i: nat, n: int, readyR: set<int>, readyW: set<int>,
                                             act: Handlers)
    requires Serving(s) && OwnOnly(act)
    ensures var fired := Iterate(s, i, n, readyR, readyW, act).1;
            forall fd :: i <= fd <= n ==>
              && (Fired(fd, true) in fired <==> fd in readyR * s.masterR)
              && (fd !in readyR * s.masterR ==> (Fired(fd, false) in fired <==> fd in readyW * s.masterW))
    decreases n - i
  {
    if i <= n {
      var (t, fired) := ServeItem(s, i, readyR, readyW, act);
      var more := Iterate(t, i + 1, n, readyR, readyW, act).1;
      ServesExactly(s, i, readyR, readyW, act);
      ServeInOrder(s, i, readyR, readyW, act);
      ServeTouchesOne(s, i, readyR, readyW, act);
      IterationComplete(t, i + 1, n, readyR, readyW, act);
      IterationSound(t, i + 1, n, readyR, readyW, act);
      forall fd | i <= fd <= n
        ensures Fired(fd, true) in fired + more <==> fd in readyR * s.masterR
        ensures fd !in readyR * s.masterR ==> (Fired(fd, false) in fired + more <==> fd in readyW * s.masterW)
      {
        if fd == i {
          NotFiredLater(more, fd, i + 1, n, readyR, readyW);
        } else {
          NotFiredLater(fired, fd, i, i, readyR, readyW);
        }
      }
    }
  }

  lemma NotFiredLater(fired: seq<Fired>, fd: int, from: int, to: int, readyR: set<int>, readyW: set<int>)
    requires InOrder(fired, from, to, readyR, readyW) && !(from <= fd <= to)
    ensures Fired(fd, true) !in fired && Fired(fd, false) !in fired
  {
  }

  /** With handlers that make no calls, the whole iteration of the server fires
      exactly the descriptors that are reported and watched, and changes nothing. */
  lemma {:induction false} IdleIteration(s: Selector, readyR: set<int>, readyW: set<int>, act: Handlers)
    requires Serving(s) && forall t: Selector, fd: int, read: bool :: act(t, fd, read) == []
    ensures var (t, fired) := Iterate(s, 0, s.maxFd, readyR, readyW, act);
            && t == s
            && forall fd: int ::
                 && (Fired(fd, true) in fired <==> fd in readyR * s.masterR)
                 && (Fired(fd, false) in fired <==> fd in readyW * s.masterW)
  {
    IdleFrom(s, 0, s.maxFd, readyR, readyW, act);
    IterationSound(s, 0, s.maxFd, readyR, readyW, act);
    var fired := Iterate(s, 0, s.maxFd, readyR, readyW, act).1;
    forall fd: int
      ensures (Fired(fd, true) in fired <==> fd in readyR * s.masterR)
              && (Fired(fd, false) in fired <==> fd in readyW * s.masterW)
    {
      if !(0 <= fd <= s.maxFd) {
        NotFiredLater(fired, fd, 0, s.maxFd, readyR, readyW);
        assert !UsedAt(s, fd);
      }
    }
  }

  lemma {:induction false} IdleFrom(s: Selector, i: nat, n: int, readyR: set<int>, readyW: set<int>, act: Handlers)
    requires Serving(s) && forall t: Selector, fd: int, read: bool :: act(t, fd, read) == []
    ensures var (t, fired) := Iterate(s, i, n, readyR, readyW, act);
            && t == s
            && forall fd :: i <= fd <= n ==>
                 && (Fired(fd, true) in fired <==> fd in readyR * s.masterR)
                 && (Fired(fd, false) in fired <==> fd in readyW * s.masterW)
    decreases n - i
  {
    if i <= n {
      AfterHandlerIs(s, i, true, act);
      AfterHandlerIs(s, i, false, act);
      ServesExactly(s, i, readyR, readyW, act);
      ServeInOrder(s, i, readyR, readyW, act);
      IdleFrom(s, i + 1, n, readyR, readyW, act);
      IterationSound(s, i + 1, n, readyR, readyW, act);
      var fired, more := ServeItem(s, i, readyR, readyW, act).1, Iterate(s, i + 1, n, readyR, readyW, act).1;
      forall fd | i <= fd <= n
        ensures Fired(fd, true) in fired + more <==> fd in readyR * s.masterR
        ensures Fired(fd, false) in fired + more <==> fd in readyW * s.masterW
      {
        if fd == i {
          NotFiredLater(more, fd, i + 1, n, readyR, readyW);
        } else {
          NotFiredLater(fired, fd, i, i, readyR, readyW);
        }
      }
    }
  }

  /** A handler is called only with the interest registered at that moment: an
      item that its own read handler unregistered gets no write event. */
  lemma FiresOnlyWithInterest(s: Selector, i: nat, readyR: set<int>, readyW: set<int>, act: Handlers)
    requires Serving(s)
    ensures var fired := ServeItem(s, i, readyR, readyW, act).1;
            && (Fired(i, true) in fired ==> i in s.masterR && i in readyR)
            && (Fired(i, false) in fired ==>
                  i in readyW && i in (if Fired(i, true) in fired then AfterHandler(s, i, true, act) else s).masterW)
  {
  }
}
