/** The mutable selector of src/selector.c: an item array that is reallocated to
    grow, the bit sets and max_fd, updated in place by every call. */
module SelectorTable {
  import opened Io
  import S = Selector

  class FdSelector {
    var fds: array<S.Item>
    var maxFd: int
    var masterR: set<int>
    var masterW: set<int>
    /** handle_close callbacks made so far. */
    var closed: nat

    ghost function View(): S.Selector
      reads this, fds
    {
      S.Selector(fds[..], maxFd, masterR, masterW)
    }

    /** The zeroed structure of selector_new, before its table is allocated. */
    constructor ()
      ensures View() == S.Selector([], 0, {}, {}) && closed == 0 && fresh(fds)
    {
      fds := new S.Item[0];
      maxFd, masterR, masterW, closed := 0, {}, {}, 0;
    }

    /** items_init: mark the items from `last` on as unused. */
    method ItemsInit(last: nat)
      requires last <= fds.Length
      modifies fds
      ensures fds[..] == old(fds[..last]) + S.UnusedItems(fds.Length - last)
    {
      var i := last;
      while i < fds.Length
        invariant last <= i <= fds.Length
        invariant fds[..last] == old(fds[..last])
        invariant forall j :: last <= j < i ==> fds[j] == S.UNUSED
      {
        fds[i] := S.UNUSED;
        i := i + 1;
      }
    }

    method EnsureCapacity(n: nat, alloc: bool) returns (ret: S.Status)
      modifies this`fds
      ensures (ret, View()) == S.EnsureCapacity(old(View()), n, alloc)
      ensures fds == old(fds) || fresh(fds)
    {
      ret := S.SUCCESS;
      if n < fds.Length {
      } else if n > S.ITEMS_MAX_SIZE {
        ret := S.MAXFD;
      } else {
        var newSize := S.NextCapacity(n);
        if !alloc {
          ret := S.ENOMEM;
        } else {
          ghost var items := fds[..];
          var oldSize := fds.Length;
          var tmp := new S.Item[newSize](_ => S.UNUSED);
          forall i | 0 <= i < oldSize {
            tmp[i] := fds[i];
          }
          fds := tmp;
          assert fds[..oldSize] == items;
          ItemsInit(oldSize);
        }
      }
    }

    /** selector_new: null when the first allocation is refused. */
    static method New(initialElements: nat, alloc: bool) returns (s: FdSelector?)
      ensures s != null <==> initialElements <= S.ITEMS_MAX_SIZE && alloc
      ensures s != null ==> fresh(s) && fresh(s.fds) && S.Coherent(s.View()) && s.closed == 0
      ensures s != null ==> s.fds.Length == S.CapacityFor(initialElements) && S.CountUsed(s.fds[..]) == 0
    {
      s := new FdSelector();
      var st := s.EnsureCapacity(initialElements, alloc);
      S.CapacityCovers(initialElements);
      if st != S.SUCCESS {
        s := null;
      } else {
        S.CountUnused([], S.CapacityFor(initialElements));
        assert s.fds[..] == [] + S.UnusedItems(S.CapacityFor(initialElements));
      }
    }

    method ItemsMaxFd() returns (max: int)
      requires 0 <= maxFd < fds.Length
      ensures max == S.MaxUsed(fds[..], maxFd + 1)
    {
      max := 0;
      var i := 0;
      while i <= maxFd
        invariant 0 <= i <= maxFd + 1
        invariant max == S.MaxUsed(fds[..], i)
      {
        if fds[i].Used() {
          if fds[i].fd > max {
            max := fds[i].fd;
          }
        }
        i := i + 1;
      }
    }

    method UpdateFdset(item: S.Item)
      modifies this`masterR, this`masterW
      ensures View() == S.UpdateSets(old(View()), item)
    {
      masterR := masterR - {item.fd};
      masterW := masterW - {item.fd};
      if item.Used() {
        if item.interest.read {
          masterR := masterR + {item.fd};
        }
        if item.interest.write {
          masterW := masterW + {item.fd};
        }
      }
    }

    method Register(fd: int, handler: bool, interest: Ops, closes: bool, alloc: bool) returns (ret: S.Status)
      requires 0 <= maxFd < fds.Length && S.InBounds(View(), S.OpRegister(fd, handler, interest, closes, alloc))
      modifies this, fds
      ensures (ret, View()) == S.Do(old(View()), S.OpRegister(fd, handler, interest, closes, alloc))
      ensures closed == old(closed) && (fds == old(fds) || fresh(fds))
    {
      if S.InvalidFd(fd) || !handler {
        return S.IARGS;
      }
      ret := S.SUCCESS;
      if fd > fds.Length {
        ret := EnsureCapacity(fd, alloc);
        if ret != S.SUCCESS {
          return;
        }
      }
      if fds[fd].Used() {
        ret := S.FDINUSE;
      } else {
        var item := S.Item(fd, interest, closes);
        fds[fd] := item;
        if fd > maxFd {
          maxFd := fd;
        }
        UpdateFdset(item);
      }
    }

    method Unregister(fd: int) returns (ret: S.Status)
      requires 0 <= maxFd < fds.Length && S.InBounds(View(), S.OpUnregister(fd))
      modifies this`maxFd, this`masterR, this`masterW, this`closed, fds
      ensures (ret, View()) == S.Do(old(View()), S.OpUnregister(fd))
      ensures closed == old(closed) + S.ClosedBy(old(View()), S.OpUnregister(fd))
    {
      if S.InvalidFd(fd) {
        return S.IARGS;
      }
      ret := S.SUCCESS;
      if !fds[fd].Used() {
        return S.IARGS;
      }
      if fds[fd].closes {
        closed := closed + 1;
      }
      UpdateFdset(fds[fd].(interest := NOOP));
      fds[fd] := S.UNUSED;
      maxFd := ItemsMaxFd();
    }

    method SetInterest(fd: int, i: Ops) returns (ret: S.Status)
      requires 0 <= maxFd < fds.Length && S.InBounds(View(), S.OpSetInterest(fd, i))
      modifies this`masterR, this`masterW, fds
      ensures (ret, View()) == S.Do(old(View()), S.OpSetInterest(fd, i))
    {
      if S.InvalidFd(fd) {
        return S.IARGS;
      }
      ret := S.SUCCESS;
      if !fds[fd].Used() {
        return S.IARGS;
      }
      var item := fds[fd].(interest := i);
      fds[fd] := item;
      UpdateFdset(item);
    }

    /** One turn of the loop of selector_destroy. */
    method DestroyItem(i: nat)
      requires S.Coherent(View()) && i < fds.Length
      modifies this`maxFd, this`masterR, this`masterW, this`closed, fds
      ensures S.Coherent(View()) && !fds[i].Used()
      ensures forall j :: 0 <= j < fds.Length && j != i ==> fds[j] == old(fds[j])
      ensures closed + S.CountClosing(fds[..]) == old(closed) + old(S.CountClosing(fds[..]))
    {
      if fds[i].Used() {
        assert S.UsedAt(View(), i);
        S.UnregisterKeepsCoherent(View(), i);
        S.ClosingRemoved(fds[..], i);
        var _ := Unregister(i);
      }
    }

    /** selector_destroy: every item still in use whose handler has a close
        callback gets that call, and the table is released. */
    method Destroy()
      requires S.Coherent(View())
      modifies this, fds
      ensures closed == old(closed) + old(S.CountClosing(fds[..]))
      ensures fds.Length == 0 && masterR == {} && masterW == {}
    {
      var i := 0;
      while i < fds.Length
        invariant 0 <= i <= fds.Length && fds == old(fds) && S.Coherent(View())
        invariant forall j :: 0 <= j < i ==> !fds[j].Used()
        invariant closed + S.CountClosing(fds[..]) == old(closed) + old(S.CountClosing(fds[..]))
      {
        DestroyItem(i);
        i := i + 1;
      }
      S.NoneClosing(fds[..]);
      S.NoneWatched(View());
      fds := new S.Item[0];
    }
  }
}
