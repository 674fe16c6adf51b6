/** The madvise states of a vc4 buffer object, and the two rules that users and advisers go by. */
module MadvState {
  datatype Madv = WillNeed | DontNeed | Purged | NotSupp

  /** An object can be used while somebody uses it already, or while userspace needs it. */
  predicate Usable(madv: Madv, usecnt: int) {
    usecnt != 0 || madv == WillNeed
  }

  /** The mark after an advice: a purged object stays purged. */
  function Advised(madv: Madv, advice: Madv): Madv {
    if madv == Purged then Purged else advice
  }
}
