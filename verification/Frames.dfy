/** Frame numbers as the allocator of libnux/pfnalloc.c returns them. */
module Frames {
  datatype Pfn = Frame(pfn: nat) | PfnInvalid
}
