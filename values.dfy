/**
 Column values shared by every table of the pipeline.
 */
module Values {

  /** A nullable column: JSON `null` (or a missing field) reads as `None`. */
  datatype Option<+T> = None | Some(value: T)

  /**
   A double-precision floating-point column (`duration`, `length`,
   `latitude`, `longitude`), kept as its 64-bit pattern. The pipeline never
   computes with these values; it only copies them and compares them for
   equality in the songplays join, so the bit pattern is all it needs.
   */
  datatype Double = Double(bits: bv64)
}
