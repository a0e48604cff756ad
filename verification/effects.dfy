/**
 * Effects on memory contents that the allocators perform but the models do
 * not carry out: the contents of memory are not modelled, so an operation
 * reports the region it maps, unmaps or zeroes and the copy it makes.
 */
module Effects {

  /** `length` bytes starting at `start`: an mmap or munmap range, or a memset. */
  datatype Region = Region(start: nat, length: nat)

  /** A memmove of `length` bytes from `src` to `dst`. */
  datatype Move = Move(src: nat, dst: nat, length: nat)
}
