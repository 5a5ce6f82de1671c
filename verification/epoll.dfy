/** Readiness flags and the kernel's interest table as the reactor sees it through
    `epoll_ctl`. The table maps a descriptor to the event mask it was registered with;
    ADD fails on a descriptor already present (EEXIST), MOD fails on an absent one
    (ENOENT), and DEL removes the entry. */
module Epoll {

  type Mask = bv32

  const In: Mask := 0x001
  const Pri: Mask := 0x002
  const Out: Mask := 0x004
  const Err: Mask := 0x008
  const Hup: Mask := 0x010
  const RdHup: Mask := 0x2000
  /** Edge-triggered mode, bit 31. */
  const Et: Mask := 0x8000_0000

  /** The event kinds the reactor treats as "readable". */
  const ReadEvents: Mask := In | Pri | RdHup
  /** The event kinds that make the reactor close a descriptor. */
  const ErrorEvents: Mask := Err | Hup

  predicate Has(m: Mask, flags: Mask)
  {
    m & flags != 0
  }

  type Table = map<int, Mask>

  datatype CtlResult = CtlResult(table: Table, ok: bool)

  /** `epoll_ctl(EPOLL_CTL_ADD, fd, events)` */
  function CtlAdd(t: Table, fd: int, events: Mask): (r: CtlResult)
    ensures r.ok <==> fd !in t
    ensures r.ok ==> r.table == t[fd := events]
    ensures !r.ok ==> r.table == t
  {
    if fd in t then CtlResult(t, false) else CtlResult(t[fd := events], true)
  }

  /** `epoll_ctl(EPOLL_CTL_MOD, fd, events)`: replaces, never merges, the mask. */
  function CtlMod(t: Table, fd: int, events: Mask): (r: CtlResult)
    ensures r.ok <==> fd in t
    ensures r.ok ==> r.table == t[fd := events]
    ensures !r.ok ==> r.table == t
  {
    if fd in t then CtlResult(t[fd := events], true) else CtlResult(t, false)
  }

  /** `epoll_ctl(EPOLL_CTL_DEL, fd)` */
  function CtlDel(t: Table, fd: int): (r: CtlResult)
    ensures r.ok <==> fd in t
    ensures fd !in r.table
    ensures forall g :: g in t && g != fd ==> g in r.table && r.table[g] == t[g]
    ensures r.table.Keys == t.Keys - {fd}
  {
    CtlResult(t - {fd}, fd in t)
  }
}
