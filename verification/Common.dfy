/** Types and facts shared by the modules of the driver. */
module Common {
  datatype Option<T> = None | Some(value: T)

  /** State of a transmit engine. */
  datatype Engine = Stopped | Started

  // Error numbers, returned negated.
  const ENOENT := 2
  const EAGAIN := 11
  const EFAULT := 14
  const EBUSY := 16
  const EEXIST := 17
  const ENODEV := 19
  const EINVAL := 22
  const ENOSPC := 28
  const ERANGE := 34
  const ENODATA := 61
  const EILSEQ := 84

  /** The parts one after the other. */
  function Concat<T>(parts: seq<seq<T>>): seq<T>
    decreases |parts|
  {
    if parts == [] then [] else Concat(parts[..|parts| - 1]) + parts[|parts| - 1]
  }

  lemma ConcatSnoc<T>(parts: seq<seq<T>>, part: seq<T>)
    ensures Concat(parts + [part]) == Concat(parts) + part
  {
    assert (parts + [part])[..|parts|] == parts;
  }
}
