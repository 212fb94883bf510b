/** Contiguous bit fields of words. */
module BitFields {
  /** A contiguous run of `count` bits starting at bit `offset`. */
  datatype BitField = BitField(count: bv8, offset: bv8) {
    predicate Fits(width: bv8) {
      count <= width && offset < width && offset <= width - count
    }

    function Ones(): bv64
      requires count <= 64
    {
      (1 << count) - 1
    }

    function Decode64(val: bv64): bv64
      requires Fits(64)
    {
      (val >> offset) & Ones()
    }

    function Encode64(val: bv64): bv64
      requires Fits(64)
    {
      (val & Ones()) << offset
    }

    function Mask(): bv64
      requires Fits(64)
    {
      Ones() << offset
    }

    /** The 32-bit forms that instruction words use. */
    function Decode32(val: bv32): bv32
      requires Fits(32)
    {
      (val >> offset) & ((1 << count) - 1)
    }

    function Encode32(val: bv32): bv32
      requires Fits(32)
    {
      (val & ((1 << count) - 1)) << offset
    }
  }
}
