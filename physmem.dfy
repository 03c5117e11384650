/** Physical memory as the address space routines see it: the contents of
    each frame, keyed by the frame's physical address. */
module PhysMem {
  import opened VmTypes

  class PhysMem {
    /** The contents of every frame that has been written. */
    var pages: map<Paddr, Page>

    constructor (initial: map<Paddr, Page>)
      ensures pages == initial
    {
      pages := initial;
    }

    /** `bzero` of one whole frame. */
    method Bzero(paddr: Paddr)
      modifies this
      ensures pages == old(pages)[paddr := ZeroPage()]
    {
      pages := pages[paddr := ZeroPage()];
    }

    /** `memmove` of one whole frame from `src` to `dst`. */
    method Memmove(dst: Paddr, src: Paddr)
      requires src in pages
      modifies this
      ensures pages == old(pages)[dst := old(pages)[src]]
    {
      pages := pages[dst := pages[src]];
    }
  }
}
