/** Sizes and constants of the simple allocator's in-band memory layout.

    A zone is one mapped region that starts with a zone header (`Z` bytes);
    every block inside it starts with a free-list descriptor (`H` bytes)
    followed by the block's data. Addresses and lengths are unbounded
    naturals here; the C code works in `size_t`. */
module Layout {

  /** sizeof(sa_freelist_t) on an LP64 target: a next pointer, a size_t
      length and a data pointer. */
  const H: nat := 24

  /** sizeof(sa_zone_t) on an LP64 target: start, end and next pointers. */
  const Z: nat := 24

  /** INITIAL_SIZE: the size of the zone mapped by the first allocation. */
  const InitialSize: nat := 100 * 1024

  /** One mebibyte: the granularity of the large-request growth path. */
  const MiB: nat := 0x100000

  /** A nullable value: `None` plays the role of a NULL pointer or of a
      failed search. */
  datatype Option<T> = None | Some(value: T)

  /** The data pointer of the descriptor at `d`: the data region starts
      immediately after the descriptor. */
  function Data(d: nat): nat
  {
    d + H
  }

  /** The first address past the block whose descriptor is at `d` and whose
      data region is `length` bytes long. */
  function BlockEnd(d: nat, length: nat): nat
  {
    d + H + length
  }
}
