/**
 The selective-equality engine for connection-tracking records, as written:
 two tuple checks (original and reply direction), a metadata check, and the
 dispatch on the policy flags.

 Each check is written as the chain of early "no match" exits the engine
 uses, and each is proved equal to a declarative table: "every attribute
 that is in scope and present in both records agrees", with the per-attribute
 agreement relation given once, in `AttrAgrees`.
 */
module Comparison {
  import opened Conntrack
  import opened CompareFlags
  import StatusBits

  // ---------------------------------------------------------------------
  // The declarative table
  // ---------------------------------------------------------------------

  /** Two readings of the table. They differ only in the IPv6 address steps
      and the exact-equality exit of the timeout step: `AsWritten` is what
      the engine does, `Intended` what those two steps evidently mean. */
  datatype Variant = AsWritten | Intended

  /** A relational timeout request that holds of `t1` against `t2`. */
  predicate TimeoutRelationHolds(t1: u32, t2: u32, flags: bv32) {
    || (Requests(flags, NfctCmpTimeoutGt) && t1 > t2)
    || (Requests(flags, NfctCmpTimeoutLt) && t1 < t2)
    || (Requests(flags, NfctCmpTimeoutEq) && t1 == t2)
  }

  /** When two tuples agree on one field. As written, two IPv6 addresses
      agree when they DIFFER. */
  ghost predicate TupleFieldAgrees(v: Variant, t1: Tuple, t2: Tuple, f: TupleField) {
    match f
    case L3Proto =>
      t1.l3protonum == AfUnspec || t2.l3protonum == AfUnspec || t1.l3protonum == t2.l3protonum
    case L4Proto => t1.protonum == t2.protonum
    case Ipv4Src => t1.srcV4 == t2.srcV4
    case Ipv4Dst => t1.dstV4 == t2.dstV4
    case Ipv6Src => if v == AsWritten then t1.srcV6 != t2.srcV6 else t1.srcV6 == t2.srcV6
    case Ipv6Dst => if v == AsWritten then t1.dstV6 != t2.dstV6 else t1.dstV6 == t2.dstV6
  }

  /** When two timeouts agree. As written, equal timeouts still need a
      requested relation to hold; intended, they agree exactly unless a
      relational mode is active. */
  ghost predicate TimeoutAgrees(v: Variant, t1: u32, t2: u32, flags: bv32) {
    if v == AsWritten then
      (Requests(flags, TimeoutRelMask) || t1 == t2) && TimeoutRelationHolds(t1, t2, flags)
    else if Requests(flags, TimeoutRelMask) then
      TimeoutRelationHolds(t1, t2, flags)
    else
      t1 == t2
  }

  /** When the two records' values under attribute `a` agree. */
  ghost predicate AttrAgrees(v: Variant, ct1: Record, ct2: Record, a: Attr, flags: bv32) {
    match a
    case TupleAttr(dir, f) => TupleFieldAgrees(v, ct1.TupleOf(dir), ct2.TupleOf(dir), f)
    case Id => ct1.id == ct2.id
    case Mark => ct1.mark == ct2.mark
    case Timeout => TimeoutAgrees(v, ct1.timeout, ct2.timeout, flags)
    case Status => StatusBits.FlagsIncluded(ct1.status, ct2.status)
    case TcpState => ct1.tcpState == ct2.tcpState
  }

  /** The metadata attributes. */
  predicate InMeta(a: Attr) {
    !a.TupleAttr?
  }

  /** The attributes a policy brings into scope: all of them for the full
      comparison, otherwise the tuples of the directions it requests. */
  predicate InScope(flags: bv32, a: Attr) {
    if flags == NfctCmpAll then true
    else a.TupleAttr?
         && ((a.dir == Orig && Requests(flags, NfctCmpOrig))
             || (a.dir == Repl && Requests(flags, NfctCmpRepl)))
  }

  /** Every tuple field of direction `dir` present in both records agrees. */
  ghost predicate TupleAgrees(v: Variant, ct1: Record, ct2: Record, dir: Direction) {
    forall f :: BothHave(ct1, ct2, TupleAttr(dir, f))
                ==> TupleFieldAgrees(v, ct1.TupleOf(dir), ct2.TupleOf(dir), f)
  }

  /** Every metadata attribute present in both records agrees. */
  ghost predicate MetaAgrees(v: Variant, ct1: Record, ct2: Record, flags: bv32) {
    forall a :: InMeta(a) && BothHave(ct1, ct2, a) ==> AttrAgrees(v, ct1, ct2, a, flags)
  }

  /** Every attribute in the policy's scope and present in both records agrees. */
  ghost predicate ScopeAgrees(v: Variant, ct1: Record, ct2: Record, flags: bv32) {
    forall a :: InScope(flags, a) && BothHave(ct1, ct2, a) ==> AttrAgrees(v, ct1, ct2, a, flags)
  }

  /** The scope of a policy is the union of the metadata and the requested
      tuples, so agreement over it splits into the three tables. */
  lemma ScopeSplits(v: Variant, ct1: Record, ct2: Record, flags: bv32)
    ensures ScopeAgrees(v, ct1, ct2, flags)
            <==> if flags == NfctCmpAll then
                   MetaAgrees(v, ct1, ct2, flags) && TupleAgrees(v, ct1, ct2, Orig) && TupleAgrees(v, ct1, ct2, Repl)
                 else
                   (Requests(flags, NfctCmpOrig) ==> TupleAgrees(v, ct1, ct2, Orig))
                   && (Requests(flags, NfctCmpRepl) ==> TupleAgrees(v, ct1, ct2, Repl))
  {
    if ScopeAgrees(v, ct1, ct2, flags) {
      forall dir, f | InScope(flags, TupleAttr(dir, f)) && BothHave(ct1, ct2, TupleAttr(dir, f))
        ensures TupleFieldAgrees(v, ct1.TupleOf(dir), ct2.TupleOf(dir), f)
      {
        assert AttrAgrees(v, ct1, ct2, TupleAttr(dir, f), flags);
      }
    }
    if flags == NfctCmpAll && MetaAgrees(v, ct1, ct2, flags)
       && TupleAgrees(v, ct1, ct2, Orig) && TupleAgrees(v, ct1, ct2, Repl) {
      forall a | BothHave(ct1, ct2, a)
        ensures AttrAgrees(v, ct1, ct2, a, flags)
      {
        if a.TupleAttr? {
          assert TupleFieldAgrees(v, ct1.TupleOf(a.dir), ct2.TupleOf(a.dir), a.field);
        }
      }
    }
    if flags != NfctCmpAll
       && (Requests(flags, NfctCmpOrig) ==> TupleAgrees(v, ct1, ct2, Orig))
       && (Requests(flags, NfctCmpRepl) ==> TupleAgrees(v, ct1, ct2, Repl)) {
      forall a | InScope(flags, a) && BothHave(ct1, ct2, a)
        ensures AttrAgrees(v, ct1, ct2, a, flags)
      {
        assert TupleFieldAgrees(v, ct1.TupleOf(a.dir), ct2.TupleOf(a.dir), a.field);
      }
    }
  }

  // ---------------------------------------------------------------------
  // The engine as written
  // ---------------------------------------------------------------------

  /** `cmp_orig` and `cmp_repl`: one direction's tuple check. Every step is
      skipped unless both records carry the attribute; an `AF_UNSPEC` family
      on either side disables the L3 step; the IPv6 steps report a mismatch
      when the addresses are equal. */
  function CmpTuple(ct1: Record, ct2: Record, dir: Direction): (r: bool)
    ensures r <==> TupleAgrees(AsWritten, ct1, ct2, dir)
  {
    var t1 := ct1.TupleOf(dir);
    var t2 := ct2.TupleOf(dir);
    if BothHave(ct1, ct2, TupleAttr(dir, L3Proto))
       && t1.l3protonum != AfUnspec
       && t2.l3protonum != AfUnspec
       && t1.l3protonum != t2.l3protonum then
      false
    else if BothHave(ct1, ct2, TupleAttr(dir, L4Proto)) && t1.protonum != t2.protonum then
      false
    else if BothHave(ct1, ct2, TupleAttr(dir, Ipv4Src)) && t1.srcV4 != t2.srcV4 then
      false
    else if BothHave(ct1, ct2, TupleAttr(dir, Ipv4Dst)) && t1.dstV4 != t2.dstV4 then
      false
    else if BothHave(ct1, ct2, TupleAttr(dir, Ipv6Src)) && t1.srcV6 == t2.srcV6 then
      false
    else if BothHave(ct1, ct2, TupleAttr(dir, Ipv6Dst)) && t1.dstV6 == t2.dstV6 then
      false
    else
      true
  }

  /** `cmp_orig`: the tuple check of the original direction. */
  function CmpOrig(ct1: Record, ct2: Record): (r: bool)
    ensures r <==> TupleAgrees(AsWritten, ct1, ct2, Orig)
  {
    CmpTuple(ct1, ct2, Orig)
  }

  /** `cmp_repl`: the tuple check of the reply direction. */
  function CmpRepl(ct1: Record, ct2: Record): (r: bool)
    ensures r <==> TupleAgrees(AsWritten, ct1, ct2, Repl)
  {
    CmpTuple(ct1, ct2, Repl)
  }

  /** The timeout step of `cmp_meta`, taken when both records carry the
      timeout. Without a relational mode, unequal timeouts fail at once;
      otherwise (and also for equal timeouts) the step passes only when one
      of the requested relations GT, LT, EQ holds. */
  function TimeoutStep(t1: u32, t2: u32, flags: bv32): (r: bool)
    ensures r ==> TimeoutRelationHolds(t1, t2, flags)
    ensures r <==> TimeoutAgrees(AsWritten, t1, t2, flags)
  {
    if !Requests(flags, TimeoutRelMask) && t1 != t2 then
      false
    else
      if Requests(flags, NfctCmpTimeoutGt) && t1 > t2 then true
      else if Requests(flags, NfctCmpTimeoutLt) && t1 < t2 then true
      else Requests(flags, NfctCmpTimeoutEq) && t1 == t2
  }

  /** The status step of `cmp_meta`: the mask test `(s1 & s2) == s1`, which
      passes exactly when no flag of `s1` is missing from `s2`. */
  function StatusStep(s1: bv32, s2: bv32): (r: bool)
    ensures r <==> StatusBits.FlagsIncluded(s1, s2)
  {
    (s1 & s2) == s1
  }

  /** `cmp_meta`: id, mark, timeout, status and TCP state, each skipped
      unless both records carry it. */
  function CmpMeta(ct1: Record, ct2: Record, flags: bv32): (r: bool)
    ensures r <==> MetaAgrees(AsWritten, ct1, ct2, flags)
  {
    if BothHave(ct1, ct2, Id) && ct1.id != ct2.id then
      false
    else if BothHave(ct1, ct2, Mark) && ct1.mark != ct2.mark then
      false
    else if BothHave(ct1, ct2, Timeout) && !TimeoutStep(ct1.timeout, ct2.timeout, flags) then
      false
    else if BothHave(ct1, ct2, Status) && !StatusStep(ct1.status, ct2.status) then
      false
    else if BothHave(ct1, ct2, TcpState) && ct1.tcpState != ct2.tcpState then
      false
    else
      true
  }

  /** `__compare`: the full comparison when the flags are exactly
      NFCT_CMP_ALL (the metadata check then sees those same flags);
      otherwise only the requested tuple checks, and never the metadata. */
  function Compare(ct1: Record, ct2: Record, flags: bv32): (r: bool)
    ensures r <==> ScopeAgrees(AsWritten, ct1, ct2, flags)
  {
    ScopeSplits(AsWritten, ct1, ct2, flags);
    if flags == NfctCmpAll then
      CmpMeta(ct1, ct2, flags) && CmpOrig(ct1, ct2) && CmpRepl(ct1, ct2)
    else if Requests(flags, NfctCmpOrig) && !CmpOrig(ct1, ct2) then
      false
    else if Requests(flags, NfctCmpRepl) && !CmpRepl(ct1, ct2) then
      false
    else
      true
  }
}
