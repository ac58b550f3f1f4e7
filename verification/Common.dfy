/** Definitions shared by the models of the IPC components. */
module Common {

  /** Which text of an operation is meant: the statements of the repository, or
      the same statements with the one repair named where the operation is modelled. */
  datatype Code = AsWritten | Repaired

  /** size_t has 64 bits. */
  const SIZE_T := 0x1_0000_0000_0000_0000

  datatype Option<+T> = None | Some(value: T)

  /** A call either returns a value or leaves by an exception. */
  datatype Result<+T> = Ok(value: T) | Throw(error: Error)

  datatype Error =
    | ZeroBytes          // "0-bytes size for new Descriptor"
    | NoFreeDescriptor   // "no free BufferDescriptor"
    | SegmentFailed      // shmget or shmat failed
    | Interrupted        // FUTEX_WAIT failed with EINTR
    | TooManyMutexes     // "Cant alloc more Mutexes"
    | IndexOutOfRange    // BitBuffer::checkIdx
    | NumberOutOfRange   // BitBuffer::checkNumber
}
