/**
 The comparison policy: an `unsigned int` bit mask selecting the scope of the
 comparison (full, original tuple, reply tuple) and the relational modes for
 the timeout. The numeric values of the NFCT_CMP_* options are defined
 outside this model and are left uninterpreted; nothing here assumes any
 relation between them beyond the one combination the comparison itself
 builds.
 */
module CompareFlags {

  const NfctCmpAll: bv32
  const NfctCmpOrig: bv32
  const NfctCmpRepl: bv32
  const NfctCmpTimeoutEq: bv32
  const NfctCmpTimeoutGt: bv32
  const NfctCmpTimeoutLt: bv32
  const NfctCmpTimeoutLe: bv32

  /** "Some relational timeout mode is active": the LE and GT options together. */
  const TimeoutRelMask: bv32 := NfctCmpTimeoutLe | NfctCmpTimeoutGt

  /** C truth of `flags & option`: some bit of the option is set in the flags. */
  predicate Requests(flags: bv32, option: bv32) {
    flags & option != 0
  }
}
