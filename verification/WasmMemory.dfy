// wasm_morecore and the linear memory it grows (src/runtime/src/alloc_wasm.c:6-22). Whether the host
// grants a memory.grow is not known: the model allows either answer.

module WasmMemory {
  import opened BinMaps

  const WASM_PAGE: nat := 65536
  /** MFAIL, (void*)-1 */
  const FAIL: nat := W - 1

  /** As many pages as there are, or as few more as reach up to the break. */
  function PagesFor(pages: nat, brk: nat): nat {
    if brk <= pages * WASM_PAGE then pages else (brk + WASM_PAGE - 1) / WASM_PAGE
  }

  class Memory {
    const heapBase: nat
    var heapBreak: nat
    var pages: nat
    /** How often the host has turned down a request for pages. */
    ghost var denials: nat

    ghost predicate Valid()
      reads this
    {
      0 < heapBase < W && heapBreak < W && (heapBreak == 0 || heapBase <= heapBreak) && pages <= WASM_PAGE
    }

    /** The break as the next call sees it. */
    ghost function Break(): nat
      reads this
    {
      if heapBreak == 0 then heapBase else heapBreak
    }

    /** Later than a state with that break and that many denials. */
    ghost predicate Since(brk: nat, denied: nat)
      reads this
    {
      brk <= Break() && denied <= denials
    }

    ghost predicate Backed()
      reads this
    {
      Break() <= pages * WASM_PAGE
    }

    constructor (heapBase: nat, pages: nat)
      requires 0 < heapBase < W && pages <= WASM_PAGE
      ensures Valid() && Break() == heapBase
    {
      this.heapBase, this.heapBreak, this.pages := heapBase, 0, pages;
      this.denials := 0;
    }

    /** `memory.grow`: within the 32-bit address space, and if the host agrees. */
    method Grow(more: nat) returns (ok: bool)
      requires pages <= WASM_PAGE
      modifies this`pages, this`denials
      ensures pages == (if ok then old(pages) + more else old(pages)) && pages <= WASM_PAGE
      ensures denials == old(denials) + if ok || old(pages) + more > WASM_PAGE then 0 else 1
    {
      ok := *;
      if pages + more > WASM_PAGE {
        ok := false;
      } else if ok {
        pages := pages + more;
      } else {
        denials := denials + 1;
      }
    }

    /** `wasm_morecore`: the break moves up by exactly the increment and memory backs it, or it stays. */
    method Morecore(increment: int) returns (r: nat)
      requires Valid()
      modifies this
      ensures Valid() && (r == FAIL || r == old(Break()))
      ensures Break() == (if r == FAIL then old(Break()) else old(Break()) + increment)
      ensures r != FAIL ==> increment >= 0 && Backed()
      ensures increment == 0 && old(Backed()) ==> r == old(Break())
      ensures old(Backed()) ==> Backed()
      ensures Since(old(Break()), old(denials))
      ensures r != FAIL ==> pages == PagesFor(old(pages), Break())
      ensures r == FAIL && pages != old(pages) ==> Break() + increment == W - 1
      ensures r == FAIL && increment >= 0 ==> old(Break()) + increment >= W - 1 || denials > old(denials)
    {
      if heapBreak == 0 {
        heapBreak := heapBase;
      }
      if increment < 0 || increment > W - 1 - heapBreak {
        return FAIL;
      }
      var previous := heapBreak;
      var required := previous + increment;
      var current := pages * WASM_PAGE;
      if required > current {
        var more := (required - current + 65535) / WASM_PAGE;
        var ok := Grow(more);
        if !ok {
          return FAIL;
        }
      }
      heapBreak := required;
      r := previous;
    }
  }
}
