/** Vocabulary shared by every part of the model. */
module Common {

  /** `null` / `undefined` versus a present value. */
  datatype Option<+T> = None | Some(value: T)

  /** A face descriptor (a `Float32Array` of 128 numbers in the source), as exact reals. */
  type Descriptor = seq<real>

  /** The length of every descriptor produced by the recognition network. */
  const DescriptorLength: nat := 128

  /** An operation that either completes or throws an `Error` with a message. */
  datatype Outcome = Done | Thrown(message: string)
}
