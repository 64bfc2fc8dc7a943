/**
 * The operating system's side: page protection, regions held from the system allocator, memory.
 * Each method's requires is what its caller in the checker has to guarantee.
 */
module AddressSpace {
  import opened Machine
  import opened Layout
  import opened HeapModel

  class AddressSpace {
    const page: nat
    var guarded: set<Addr>
    var held: map<Addr, nat>
    var bytes: map<Addr, Byte>

    constructor (page: nat)
      ensures this.page == page && guarded == {} && held == map[] && bytes == map[]
    {
      this.page := page;
      guarded, held, bytes := {}, map[], map[];
    }

    /** [addr, addr + len) lies inside the region held at base. */
    ghost predicate Inside(base: Addr, addr: Addr, len: nat)
      reads this
    {
      base in held && base <= addr && addr + len <= base + held[base]
    }

    /** No byte of [addr, addr + len) is protected. */
    ghost predicate Accessible(addr: Addr, len: nat)
      reads this
    {
      forall a :: addr <= a < addr + len ==> a !in guarded
    }

    /** A region granted by posix_memalign or the system malloc. */
    method Grant(addr: Addr, len: nat, init: seq<Byte>)
      requires Unclaimed(held, addr, len) && |init| == len
      modifies this`held, this`bytes
      ensures held == old(held)[addr := len] && bytes == Fill(old(bytes), addr, init)
    {
      held := held[addr := len];
      bytes := Fill(bytes, addr, init);
    }

    /** mprotect of whole pages that belong to a single held region. */
    method Mprotect(addr: Addr, len: nat, protect: bool, ghost base: Addr)
      requires 0 < page && WholePages(page, addr, len) && Inside(base, addr, len)
      modifies this`guarded
      ensures guarded == if protect then old(guarded) + Range(addr, addr + len)
                         else old(guarded) - Range(addr, addr + len)
    {
      guarded := if protect then guarded + Range(addr, addr + len) else guarded - Range(addr, addr + len);
    }

    /** free: of a held region, and only once all of it is readable and writable again. */
    method Free(addr: Addr)
      requires addr in held && Accessible(addr, held[addr])
      modifies this`held, this`bytes
      ensures held == old(held) - {addr} && bytes == old(bytes) - Range(addr, addr + old(held)[addr])
    {
      bytes := bytes - Range(addr, addr + held[addr]);
      held := held - {addr};
    }

    /** memcpy between accessible ranges that do not overlap. */
    method Memcpy(dst: Addr, src: Addr, n: nat)
      requires Accessible(dst, n) && Accessible(src, n) && Apart(dst, n, src, n)
      modifies this`bytes
      ensures bytes == Copy(old(bytes), dst, src, n)
    {
      bytes := Copy(bytes, dst, src, n);
    }

    method Memset0(dst: Addr, n: nat)
      requires Accessible(dst, n)
      modifies this`bytes
      ensures bytes == Zero(old(bytes), dst, n)
    {
      bytes := Zero(bytes, dst, n);
    }
  }
}
