/** Abstract view of the torch tensors the host code handles: only what the
    host-side checks look at (element type, device kind and shape). The
    integer contents that the host reads are passed separately, as sequences. */
module Tensors {

  /** The element types a tensor can carry. */
  datatype ScalarType = Bool | UInt8 | Int8 | Int16 | Int32 | Int64 | Float16 | BFloat16 | Float32 | Float64

  /** The device kind a tensor lives on; every kind other than CPU and CUDA
      is told apart by its name only. */
  datatype DeviceType = CPU | CUDA | OtherDevice(kind: string)

  datatype Tensor = Tensor(dtype: ScalarType, device: DeviceType, shape: seq<nat>)

  /** A tensor of shape [n, 3]: one 3-D coordinate per row. */
  predicate IsPointMatrix(t: Tensor)
  {
    |t.shape| == 2 && t.shape[1] == 3
  }

  /** The reasons a call fails (each corresponds to one TORCH_CHECK). */
  datatype Error =
    | UnknownMetric(tag: string)
    | WrongDtype(argument: string, expected: ScalarType, actual: ScalarType)
    | DtypeMismatch(first: string, second: string)
    | DeviceMismatch(first: string, second: string)
    | UnsupportedIndexDtype(dtype: ScalarType)
    | ShapeMismatch(argument: string)
    | NotCompiledWithCuda(operation: string)
    | UnsupportedPoints(operation: string, points: Tensor)

  datatype Result<+T> = Ok(value: T) | Err(error: Error)
}
