/**
 Status flags are a 32-bit mask. The comparison tests `(s1 & s2) == s1`;
 this module shows that the test is exactly "no flag of s1 is missing from
 s2" (see `Comparison.StatusStep`), and what that means for single flags and
 groups of flags.
 */
module StatusBits {

  /** The flags set in `s1` but not in `s2`: together with the flags the two
      share they make up all of `s1`. */
  function MissingFlags(s1: bv32, s2: bv32): (m: bv32)
    ensures m & s2 == 0
    ensures m | (s1 & s2) == s1
  {
    s1 & !s2
  }

  /** Every flag of `s1` is also set in `s2`. */
  predicate FlagsIncluded(s1: bv32, s2: bv32) {
    MissingFlags(s1, s2) == 0
  }

  /** Under inclusion, whatever part of a group of flags is set in `s1` is
      also set in `s2`. */
  lemma IncludedFlagIsSet(s1: bv32, s2: bv32, flag: bv32)
    requires FlagsIncluded(s1, s2)
    ensures s1 & flag & s2 == s1 & flag
  {
    assert s1 & flag == s1 & (s2 & flag);
  }

  /** A single flag set in `s1` and clear in `s2` breaks inclusion. */
  lemma MissingFlagBreaksInclusion(s1: bv32, s2: bv32, flag: bv32)
    requires s1 & flag != 0 && s2 & flag == 0
    ensures !FlagsIncluded(s1, s2)
  {
    assert MissingFlags(s1, s2) & flag == s1 & flag;
  }

  /** Inclusion is a preorder: reflexive and transitive, but not symmetric. */
  lemma InclusionIsPreorder(s1: bv32, s2: bv32, s3: bv32)
    ensures FlagsIncluded(s1, s1)
    ensures FlagsIncluded(s1, s2) && FlagsIncluded(s2, s3) ==> FlagsIncluded(s1, s3)
  {
  }
}
