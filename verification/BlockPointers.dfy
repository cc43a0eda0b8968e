/** The parts of a block pointer that several of zdb's checks look at. */
module BlockPointers {

  /** A data virtual address: where one copy of a block lies. */
  datatype Dva = Dva(vdev: nat, offset: nat, asize: nat)

  /** The vdev and offset of a block's first copy, by which the clone table and the livelists know it. */
  type BlockKey = (nat, nat)
}
