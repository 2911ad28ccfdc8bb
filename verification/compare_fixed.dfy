/**
 The comparison with its two evident defects corrected:
 - the IPv6 steps report a mismatch when the addresses DIFFER (as the IPv4
   steps do), instead of when they are equal;
 - without a relational timeout mode, equal timeouts pass, instead of
   falling through to the relational steps and failing.
 Everything else is the engine of module Comparison unchanged. Each defect is
 exhibited on the engine as written, and the intended property is proved of
 the corrected one.
 */
module CorrectedComparison {
  import opened Conntrack
  import opened CompareFlags
  import opened Comparison
  import StatusBits

  /** The tuple check with the IPv6 steps in the IPv4 sense. */
  function CmpTupleFixed(ct1: Record, ct2: Record, dir: Direction): (r: bool)
    ensures r <==> TupleAgrees(Intended, ct1, ct2, dir)
  {
    var t1 := ct1.TupleOf(dir);
    var t2 := ct2.TupleOf(dir);
    if BothHave(ct1, ct2, TupleAttr(dir, L3Proto))
       && t1.l3protonum != AfUnspec
       && t2.l3protonum != AfUnspec
       && t1.l3protonum != t2.l3protonum then
      false
    else if BothHave(ct1, ct2, TupleAttr(dir, L4Proto)) && t1.protonum != t2.protonum then
      false
    else if BothHave(ct1, ct2, TupleAttr(dir, Ipv4Src)) && t1.srcV4 != t2.srcV4 then
      false
    else if BothHave(ct1, ct2, TupleAttr(dir, Ipv4Dst)) && t1.dstV4 != t2.dstV4 then
      false
    else if BothHave(ct1, ct2, TupleAttr(dir, Ipv6Src)) && t1.srcV6 != t2.srcV6 then
      false
    else if BothHave(ct1, ct2, TupleAttr(dir, Ipv6Dst)) && t1.dstV6 != t2.dstV6 then
      false
    else
      true
  }

  /** The timeout step with an exact comparison when no relational mode is
      active, and the GT/LT/EQ steps otherwise. */
  function TimeoutStepFixed(t1: u32, t2: u32, flags: bv32): (r: bool)
    ensures !Requests(flags, TimeoutRelMask) ==> (r <==> t1 == t2)
    ensures r <==> TimeoutAgrees(Intended, t1, t2, flags)
  {
    if !Requests(flags, TimeoutRelMask) then
      t1 == t2
    else
      if Requests(flags, NfctCmpTimeoutGt) && t1 > t2 then true
      else if Requests(flags, NfctCmpTimeoutLt) && t1 < t2 then true
      else Requests(flags, NfctCmpTimeoutEq) && t1 == t2
  }

  /** `cmp_meta` over the corrected timeout step. */
  function CmpMetaFixed(ct1: Record, ct2: Record, flags: bv32): (r: bool)
    ensures r <==> MetaAgrees(Intended, ct1, ct2, flags)
  {
    if BothHave(ct1, ct2, Id) && ct1.id != ct2.id then
      false
    else if BothHave(ct1, ct2, Mark) && ct1.mark != ct2.mark then
      false
    else if BothHave(ct1, ct2, Timeout) && !TimeoutStepFixed(ct1.timeout, ct2.timeout, flags) then
      false
    else if BothHave(ct1, ct2, Status) && !StatusStep(ct1.status, ct2.status) then
      false
    else if BothHave(ct1, ct2, TcpState) && ct1.tcpState != ct2.tcpState then
      false
    else
      true
  }

  /** The dispatch of `__compare` over the corrected checks. */
  function CompareFixed(ct1: Record, ct2: Record, flags: bv32): (r: bool)
    ensures r <==> ScopeAgrees(Intended, ct1, ct2, flags)
  {
    ScopeSplits(Intended, ct1, ct2, flags);
    if flags == NfctCmpAll then
      CmpMetaFixed(ct1, ct2, flags) && CmpTupleFixed(ct1, ct2, Orig) && CmpTupleFixed(ct1, ct2, Repl)
    else if Requests(flags, NfctCmpOrig) && !CmpTupleFixed(ct1, ct2, Orig) then
      false
    else if Requests(flags, NfctCmpRepl) && !CmpTupleFixed(ct1, ct2, Repl) then
      false
    else
      true
  }

  // ---------------------------------------------------------------------
  // The defects, as written
  // ---------------------------------------------------------------------

  /** As written, a record carrying an original IPv6 source never matches
      itself under any policy that compares the original tuple. */
  lemma AsWrittenIpv6SelfMismatch(ct: Record, flags: bv32)
    requires ct.Has(TupleAttr(Orig, Ipv6Src))
    requires flags == NfctCmpAll || Requests(flags, NfctCmpOrig)
    ensures !Compare(ct, ct, flags)
  {
    assert !AttrAgrees(AsWritten, ct, ct, TupleAttr(Orig, Ipv6Src), flags);
    assert InScope(flags, TupleAttr(Orig, Ipv6Src));
  }

  /** As written, equal timeouts fail the timeout step when none of GT, LT,
      EQ is requested: flags 0 and timeouts 30 and 30. */
  lemma AsWrittenEqualTimeoutsRejected()
    ensures !TimeoutStep(30, 30, 0)
  {
  }

  /** As written, when the value of NFCT_CMP_ALL carries none of the GT, LT,
      EQ bits, no full comparison of two records that both carry a timeout
      ever matches, not even a record against itself. */
  lemma AsWrittenFullCompareRejectsTimeouts(ct1: Record, ct2: Record)
    requires BothHave(ct1, ct2, Timeout)
    requires !Requests(NfctCmpAll, NfctCmpTimeoutGt)
    requires !Requests(NfctCmpAll, NfctCmpTimeoutLt)
    requires !Requests(NfctCmpAll, NfctCmpTimeoutEq)
    ensures !Compare(ct1, ct2, NfctCmpAll)
    ensures !Compare(ct1, ct1, NfctCmpAll)
  {
    assert !AttrAgrees(AsWritten, ct1, ct2, Timeout, NfctCmpAll);
    assert !AttrAgrees(AsWritten, ct1, ct1, Timeout, NfctCmpAll);
  }

  // ---------------------------------------------------------------------
  // The intended properties, proved of the corrected engine
  // ---------------------------------------------------------------------

  /** Corrected, the IPv6 steps are exact like the IPv4 ones. */
  lemma FixedIpv6IsExact(ct1: Record, ct2: Record, dir: Direction, f: TupleField)
    requires f == Ipv6Src || f == Ipv6Dst
    requires BothHave(ct1, ct2, TupleAttr(dir, f))
    ensures TupleFieldValue(ct1.TupleOf(dir), f) != TupleFieldValue(ct2.TupleOf(dir), f)
            ==> !CmpTupleFixed(ct1, ct2, dir)
    ensures TupleFieldValue(ct1.TupleOf(dir), f) == TupleFieldValue(ct2.TupleOf(dir), f)
            ==> CmpTupleFixed(ct1, ct2, dir)
                == CmpTupleFixed(ct1, ct2.(attrs := ct2.attrs - {TupleAttr(dir, f)}), dir)
  {
  }

  /** Corrected, every record matches itself under every policy, except when
      the full policy requests a relational timeout mode without EQ (a strict
      GT or LT is irreflexive). */
  lemma FixedCompareReflexive(ct: Record, flags: bv32)
    requires flags == NfctCmpAll && Requests(flags, TimeoutRelMask) ==> Requests(flags, NfctCmpTimeoutEq)
    ensures CompareFixed(ct, ct, flags)
  {
    StatusBits.InclusionIsPreorder(ct.status, ct.status, ct.status);
    forall a | InScope(flags, a) && BothHave(ct, ct, a)
      ensures AttrAgrees(Intended, ct, ct, a, flags)
    {
    }
  }

  /** Corrected, equal timeouts pass when no relational mode is active. */
  lemma FixedEqualTimeoutsAccepted(t: u32, flags: bv32)
    requires !Requests(flags, TimeoutRelMask)
    ensures TimeoutStepFixed(t, t, flags)
  {
  }

  /** The corrections change nothing for records that do not both carry an
      IPv6 address or a timeout. */
  lemma FixedAgreesElsewhere(ct1: Record, ct2: Record, flags: bv32)
    requires forall dir :: !BothHave(ct1, ct2, TupleAttr(dir, Ipv6Src))
    requires forall dir :: !BothHave(ct1, ct2, TupleAttr(dir, Ipv6Dst))
    requires !BothHave(ct1, ct2, Timeout)
    ensures CompareFixed(ct1, ct2, flags) == Compare(ct1, ct2, flags)
  {
    forall a | BothHave(ct1, ct2, a)
      ensures AttrAgrees(Intended, ct1, ct2, a, flags) == AttrAgrees(AsWritten, ct1, ct2, a, flags)
    {
    }
  }
}
