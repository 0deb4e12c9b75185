/** The values the point operators pass around: images and tables as numpy
    arrays reduced to what the operators look at (shape, element type, samples),
    and the errors they raise. */
module ImageModel {
  import opened Numeric

  /** numpy element types, as far as the operators distinguish them: 8-bit
      unsigned, or anything else. */
  datatype DType = UInt8 | OtherDType

  /** Number of samples an array of the given shape holds. */
  function Product(shape: seq<nat>): nat
  {
    if shape == [] then 1 else shape[0] * Product(shape[1..])
  }

  /** An image array: its shape (`H x W` for greyscale, `H x W x C` for colour)
      and its samples flattened in row-major order, so the channel index runs
      fastest. */
  datatype Image = Image(shape: seq<nat>, dtype: DType, samples: seq<int>)
  {
    /** What numpy guarantees of any array: the samples fill the shape, and a
        uint8 array only holds bytes. */
    predicate WellFormed()
    {
      |samples| == Product(shape) && (dtype == UInt8 ==> AllBytes(samples))
    }
  }

  /** A one-dimensional lookup table, indexed by source intensity. */
  datatype Lut = Lut(dtype: DType, entries: seq<int>)
  {
    predicate WellFormed()
    {
      dtype == UInt8 ==> AllBytes(entries)
    }

    /** A table `apply_lut` accepts: 256 entries of type uint8. */
    predicate IsByteTable()
    {
      dtype == UInt8 && |entries| == 256 && AllBytes(entries)
    }
  }

  /** The Python exception classes the operators raise. */
  datatype Exception = ValueError | TypeError

  datatype Error =
    | InvalidLutLength     // apply_lut: the table does not have 256 entries
    | NotEightBit          // apply_lut: the table or the image is not uint8
    | ShapeNotUnpackable   // apply_lut: the image is neither 2-D nor 3-D
    | InvalidContrastArgs  // adjust_contrast: histogram length or negative scale
    | NaNBrightness        // adjust_contrast: int() of 0/0 for an empty histogram
    | EmptyHistogram       // equalization: no pixels to normalise by
  {
    /** Only the element-type check raises `TypeError`; every other failure
        is a `ValueError`. */
    function Raised(): (e: Exception)
      ensures e == TypeError <==> this == NotEightBit
    {
      match this
      case NotEightBit => TypeError
      case _ => ValueError
    }
  }

  datatype Result<T> = Ok(value: T) | Err(error: Error)
}
