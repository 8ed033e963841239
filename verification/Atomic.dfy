/** The one read-modify-write primitive the lock-free code is built on. */
module Atomic {

  datatype Exchange = Exchange(mem: int, ret: int)

  /** lock cmpxchg: store `new_` if memory holds `old_`; the old contents are returned. */
  function Cmpxchg(mem: int, old_: int, new_: int): (r: Exchange)
    ensures r.ret == mem
    ensures r.ret == old_ <==> mem == old_
    ensures r.mem == mem || (r.mem == new_ && r.ret == old_)
  {
    Exchange(if mem == old_ then new_ else mem, mem)
  }
}
