/**
 Properties of the comparison engine that relate several calls: the
 presence gate, the L3 wildcard, the IPv6 and IPv4 steps, symmetry and
 direction locality of the tuple checks, the one-way status test, the
 timeout step and the dispatch on the policy flags.
 */
module CompareProps {
  import opened Conntrack
  import opened CompareFlags
  import opened Comparison
  import StatusBits

  /** The record with attribute `a` dropped from its presence set. */
  function Without(ct: Record, a: Attr): (r: Record)
    ensures !r.Has(a)
    ensures forall b :: b != a ==> (r.Has(b) <==> ct.Has(b))
  {
    ct.(attrs := ct.attrs - {a})
  }

  /** `ct'` differs from `ct` at most in the value stored under `a`. */
  ghost predicate DiffersOnlyAt(ct: Record, ct': Record, a: Attr) {
    && ct'.attrs == ct.attrs
    && forall b :: b != a ==> FieldValue(ct', b) == FieldValue(ct, b)
  }

  // ---------------------------------------------------------------------
  // Presence gate
  // ---------------------------------------------------------------------

  /** Only the values of attributes present in BOTH records can influence any
      of the checks: changing anything else, on either record, never changes
      a result. By `Conntrack.FieldValuesDetermineRecord`, the values under
      the attributes cover every stored field, so "anything else" leaves out
      nothing. */
  lemma PresenceGate(ct1: Record, ct2: Record, ct1': Record, ct2': Record, flags: bv32)
    requires ct1'.attrs == ct1.attrs && ct2'.attrs == ct2.attrs
    requires forall a :: BothHave(ct1, ct2, a) ==>
               FieldValue(ct1', a) == FieldValue(ct1, a) && FieldValue(ct2', a) == FieldValue(ct2, a)
    ensures CmpOrig(ct1', ct2') == CmpOrig(ct1, ct2)
    ensures CmpRepl(ct1', ct2') == CmpRepl(ct1, ct2)
    ensures CmpMeta(ct1', ct2', flags) == CmpMeta(ct1, ct2, flags)
    ensures Compare(ct1', ct2', flags) == Compare(ct1, ct2, flags)
  {
    forall a | BothHave(ct1, ct2, a)
      ensures AttrAgrees(AsWritten, ct1', ct2', a, flags) == AttrAgrees(AsWritten, ct1, ct2, a, flags)
    {
      AgreementReadsOnlyValues(AsWritten, ct1, ct2, ct1', ct2', a, flags);
    }
    forall dir, f | BothHave(ct1, ct2, TupleAttr(dir, f))
      ensures TupleFieldAgrees(AsWritten, ct1'.TupleOf(dir), ct2'.TupleOf(dir), f)
              == TupleFieldAgrees(AsWritten, ct1.TupleOf(dir), ct2.TupleOf(dir), f)
    {
      assert AttrAgrees(AsWritten, ct1', ct2', TupleAttr(dir, f), flags)
             == AttrAgrees(AsWritten, ct1, ct2, TupleAttr(dir, f), flags);
    }
    assert TupleAgrees(AsWritten, ct1', ct2', Orig) == TupleAgrees(AsWritten, ct1, ct2, Orig);
    assert TupleAgrees(AsWritten, ct1', ct2', Repl) == TupleAgrees(AsWritten, ct1, ct2, Repl);
    assert MetaAgrees(AsWritten, ct1', ct2', flags) == MetaAgrees(AsWritten, ct1, ct2, flags);
    ScopeSplits(AsWritten, ct1, ct2, flags);
    ScopeSplits(AsWritten, ct1', ct2', flags);
  }

  /** The agreement of one attribute reads only the two values stored under it. */
  lemma AgreementReadsOnlyValues(v: Variant, ct1: Record, ct2: Record, ct1': Record, ct2': Record, a: Attr, flags: bv32)
    requires FieldValue(ct1', a) == FieldValue(ct1, a) && FieldValue(ct2', a) == FieldValue(ct2, a)
    ensures AttrAgrees(v, ct1', ct2', a, flags) == AttrAgrees(v, ct1, ct2, a, flags)
  {
    if a.TupleAttr? {
      assert TupleFieldValue(ct1'.TupleOf(a.dir), a.field) == TupleFieldValue(ct1.TupleOf(a.dir), a.field);
      assert TupleFieldValue(ct2'.TupleOf(a.dir), a.field) == TupleFieldValue(ct2.TupleOf(a.dir), a.field);
    }
  }

  /** The single-field form: an attribute absent from either record is
      don't-care, whatever value either record stores under it. */
  lemma AbsentAttributeIsDontCare(ct1: Record, ct2: Record, ct1': Record, ct2': Record, a: Attr, flags: bv32)
    requires !BothHave(ct1, ct2, a)
    requires DiffersOnlyAt(ct1, ct1', a) && DiffersOnlyAt(ct2, ct2', a)
    ensures CmpOrig(ct1', ct2') == CmpOrig(ct1, ct2)
    ensures CmpRepl(ct1', ct2') == CmpRepl(ct1, ct2)
    ensures CmpMeta(ct1', ct2', flags) == CmpMeta(ct1, ct2, flags)
    ensures Compare(ct1', ct2', flags) == Compare(ct1, ct2, flags)
  {
    PresenceGate(ct1, ct2, ct1', ct2', flags);
  }

  /** Records with no attribute in common match under every policy. */
  lemma NothingInCommonMatches(ct1: Record, ct2: Record, flags: bv32)
    requires ct1.attrs * ct2.attrs == {}
    ensures CmpOrig(ct1, ct2) && CmpRepl(ct1, ct2)
    ensures CmpMeta(ct1, ct2, flags)
    ensures Compare(ct1, ct2, flags)
  {
    forall a
      ensures !BothHave(ct1, ct2, a)
    {
      assert a !in ct1.attrs * ct2.attrs;
    }
  }

  // ---------------------------------------------------------------------
  // Tuple steps
  // ---------------------------------------------------------------------

  /** `AF_UNSPEC` on either side makes the L3 family a wildcard: the tuple
      check behaves as if the L3 attribute were absent, even when both
      records carry it. */
  lemma UnspecIsWildcard(ct1: Record, ct2: Record, dir: Direction)
    requires ct1.TupleOf(dir).l3protonum == AfUnspec || ct2.TupleOf(dir).l3protonum == AfUnspec
    ensures CmpTuple(ct1, ct2, dir) == CmpTuple(ct1, Without(ct2, TupleAttr(dir, L3Proto)), dir)
  {
  }

  /** When both records carry the L3 family and neither is `AF_UNSPEC`,
      differing families are a mismatch. */
  lemma L3FamilyMismatch(ct1: Record, ct2: Record, dir: Direction)
    requires BothHave(ct1, ct2, TupleAttr(dir, L3Proto))
    requires ct1.TupleOf(dir).l3protonum != AfUnspec && ct2.TupleOf(dir).l3protonum != AfUnspec
    requires ct1.TupleOf(dir).l3protonum != ct2.TupleOf(dir).l3protonum
    ensures !CmpTuple(ct1, ct2, dir)
  {
  }

  /** The IPv4 steps are exact: when both records carry the address, a
      difference is a mismatch and an equality contributes nothing. */
  lemma Ipv4IsExact(ct1: Record, ct2: Record, dir: Direction, f: TupleField)
    requires f == Ipv4Src || f == Ipv4Dst
    requires BothHave(ct1, ct2, TupleAttr(dir, f))
    ensures TupleFieldValue(ct1.TupleOf(dir), f) != TupleFieldValue(ct2.TupleOf(dir), f)
            ==> !CmpTuple(ct1, ct2, dir)
    ensures TupleFieldValue(ct1.TupleOf(dir), f) == TupleFieldValue(ct2.TupleOf(dir), f)
            ==> CmpTuple(ct1, ct2, dir) == CmpTuple(ct1, Without(ct2, TupleAttr(dir, f)), dir)
  {
  }

  /** The IPv6 steps as written: when both records carry the address, EQUAL
      addresses are a mismatch, and differing addresses contribute nothing. */
  lemma Ipv6IsInverted(ct1: Record, ct2: Record, dir: Direction, f: TupleField)
    requires f == Ipv6Src || f == Ipv6Dst
    requires BothHave(ct1, ct2, TupleAttr(dir, f))
    ensures TupleFieldValue(ct1.TupleOf(dir), f) == TupleFieldValue(ct2.TupleOf(dir), f)
            ==> !CmpTuple(ct1, ct2, dir)
    ensures TupleFieldValue(ct1.TupleOf(dir), f) != TupleFieldValue(ct2.TupleOf(dir), f)
            ==> CmpTuple(ct1, ct2, dir) == CmpTuple(ct1, Without(ct2, TupleAttr(dir, f)), dir)
  {
  }

  /** A record carrying an IPv6 source or destination in some direction never
      matches itself in that direction. */
  lemma Ipv6RecordNeverMatchesItself(ct: Record, dir: Direction, f: TupleField)
    requires f == Ipv6Src || f == Ipv6Dst
    requires ct.Has(TupleAttr(dir, f))
    ensures !CmpTuple(ct, ct, dir)
  {
    Ipv6IsInverted(ct, ct, dir, f);
  }

  /** The tuple checks are symmetric. */
  lemma TupleCheckSymmetric(ct1: Record, ct2: Record, dir: Direction)
    ensures CmpTuple(ct1, ct2, dir) == CmpTuple(ct2, ct1, dir)
  {
  }

  /** The tuple check of one direction reads only that direction's tuples and
      presence bits: the other tuple, the metadata and every other presence
      bit may change freely. */
  lemma TupleCheckIsDirectionLocal(ct1: Record, ct2: Record, ct1': Record, ct2': Record, dir: Direction)
    requires ct1'.TupleOf(dir) == ct1.TupleOf(dir) && ct2'.TupleOf(dir) == ct2.TupleOf(dir)
    requires forall f :: ct1'.Has(TupleAttr(dir, f)) == ct1.Has(TupleAttr(dir, f))
    requires forall f :: ct2'.Has(TupleAttr(dir, f)) == ct2.Has(TupleAttr(dir, f))
    ensures CmpTuple(ct1', ct2', dir) == CmpTuple(ct1, ct2, dir)
  {
  }

  // ---------------------------------------------------------------------
  // Metadata steps
  // ---------------------------------------------------------------------

  /** Each metadata attribute is one independent conjunct of `cmp_meta`. */
  lemma MetaSplitsPerAttribute(ct1: Record, ct2: Record, a: Attr, flags: bv32)
    requires InMeta(a)
    ensures CmpMeta(ct1, ct2, flags)
            <==> CmpMeta(ct1, Without(ct2, a), flags)
                 && (BothHave(ct1, ct2, a) ==> AttrAgrees(AsWritten, ct1, ct2, a, flags))
  {
    var ct2' := Without(ct2, a);
    assert MetaAgrees(AsWritten, ct1, ct2, flags)
           <==> MetaAgrees(AsWritten, ct1, ct2', flags)
                && (BothHave(ct1, ct2, a) ==> AttrAgrees(AsWritten, ct1, ct2, a, flags)) by {
      forall b | b != a
        ensures BothHave(ct1, ct2, b) == BothHave(ct1, ct2', b)
        ensures AttrAgrees(AsWritten, ct1, ct2, b, flags) == AttrAgrees(AsWritten, ct1, ct2', b, flags)
      {
        AgreementReadsOnlyValues(AsWritten, ct1, ct2, ct1, ct2', b, flags);
      }
    }
  }

  /** When both records carry the status, `cmp_meta` fails exactly when it
      would fail without the status or some flag of the first record is
      missing from the second. */
  lemma StatusIsInclusion(ct1: Record, ct2: Record, flags: bv32)
    requires BothHave(ct1, ct2, Status)
    ensures CmpMeta(ct1, ct2, flags)
            <==> CmpMeta(ct1, Without(ct2, Status), flags)
                 && StatusBits.FlagsIncluded(ct1.status, ct2.status)
  {
    MetaSplitsPerAttribute(ct1, ct2, Status, flags);
  }

  /** A record carrying only a status. */
  function StatusOnly(status: bv32): (r: Record)
    ensures r.attrs == {Status} && r.status == status
  {
    var t := Tuple(0, 0, 0, 0, Ipv6(0, 0, 0, 0), Ipv6(0, 0, 0, 0));
    Record(t, t, 0, 0, 0, status, 0, {Status})
  }

  /** The status test is one-way: {A} against {A, B} passes, {A, B} against
      {A} fails. */
  lemma StatusIsOneWay(flags: bv32)
    ensures CmpMeta(StatusOnly(1), StatusOnly(3), flags)
    ensures !CmpMeta(StatusOnly(3), StatusOnly(1), flags)
  {
  }

  /** A requested GT with a greater first timeout is enough: GT is one of the
      two options the relational mask is built from, so any GT bit in the
      flags also lies in the mask and the exact-equality exit is skipped. */
  lemma GtSuffices(t1: u32, t2: u32, flags: bv32)
    requires Requests(flags, NfctCmpTimeoutGt)
    requires t1 > t2
    ensures TimeoutStep(t1, t2, flags)
  {
  }

  /** With none of GT, LT, EQ requested the timeout step always fails, even
      for equal timeouts. */
  lemma NoRelationRejects(t1: u32, t2: u32, flags: bv32)
    requires !Requests(flags, NfctCmpTimeoutGt)
    requires !Requests(flags, NfctCmpTimeoutLt)
    requires !Requests(flags, NfctCmpTimeoutEq)
    ensures !TimeoutStep(t1, t2, flags)
  {
  }

  /** The relational mask is built from LE and GT, but the steps test GT, LT
      and EQ: an LT request that shares no bit with the mask does not reach
      its step when the timeouts differ, in either order. */
  lemma LtOutsideMaskIsIgnored(t1: u32, t2: u32, flags: bv32)
    requires Requests(flags, NfctCmpTimeoutLt)
    requires !Requests(flags, TimeoutRelMask)
    requires t1 != t2
    ensures !TimeoutStep(t1, t2, flags)
  {
  }

  // ---------------------------------------------------------------------
  // Dispatch
  // ---------------------------------------------------------------------

  /** The full comparison is the conjunction of the three checks. */
  lemma FullScopeIsConjunction(ct1: Record, ct2: Record)
    ensures Compare(ct1, ct2, NfctCmpAll)
            == (CmpMeta(ct1, ct2, NfctCmpAll) && CmpOrig(ct1, ct2) && CmpRepl(ct1, ct2))
  {
  }

  /** Any other policy runs exactly the tuple checks it requests. */
  lemma PartialScopeRunsRequestedTuples(ct1: Record, ct2: Record, flags: bv32)
    requires flags != NfctCmpAll
    ensures Compare(ct1, ct2, flags)
            == ((Requests(flags, NfctCmpOrig) ==> CmpOrig(ct1, ct2))
                && (Requests(flags, NfctCmpRepl) ==> CmpRepl(ct1, ct2)))
  {
  }

  /** Any other policy never consults the metadata: records that differ only
      in metadata values and metadata presence bits compare alike. */
  lemma PartialScopeIgnoresMeta(ct1: Record, ct2: Record, ct1': Record, ct2': Record, flags: bv32)
    requires flags != NfctCmpAll
    requires ct1'.orig == ct1.orig && ct1'.repl == ct1.repl
    requires ct2'.orig == ct2.orig && ct2'.repl == ct2.repl
    requires forall dir, f :: ct1'.Has(TupleAttr(dir, f)) == ct1.Has(TupleAttr(dir, f))
    requires forall dir, f :: ct2'.Has(TupleAttr(dir, f)) == ct2.Has(TupleAttr(dir, f))
    ensures Compare(ct1', ct2', flags) == Compare(ct1, ct2, flags)
  {
    TupleCheckIsDirectionLocal(ct1, ct2, ct1', ct2', Orig);
    TupleCheckIsDirectionLocal(ct1, ct2, ct1', ct2', Repl);
  }

  /** A policy other than the full one that requests neither direction
      matches everything. */
  lemma EmptyScopeMatches(ct1: Record, ct2: Record, flags: bv32)
    requires flags != NfctCmpAll
    requires !Requests(flags, NfctCmpOrig) && !Requests(flags, NfctCmpRepl)
    ensures Compare(ct1, ct2, flags)
  {
  }

  /** With only the original direction requested, the reply tuples never
      affect the result. */
  lemma OrigScopeIgnoresReply(ct1: Record, ct2: Record, ct1': Record, ct2': Record, flags: bv32)
    requires flags != NfctCmpAll
    requires !Requests(flags, NfctCmpRepl)
    requires ct1'.orig == ct1.orig && ct2'.orig == ct2.orig
    requires forall f :: ct1'.Has(TupleAttr(Orig, f)) == ct1.Has(TupleAttr(Orig, f))
    requires forall f :: ct2'.Has(TupleAttr(Orig, f)) == ct2.Has(TupleAttr(Orig, f))
    ensures Compare(ct1', ct2', flags) == Compare(ct1, ct2, flags)
  {
    TupleCheckIsDirectionLocal(ct1, ct2, ct1', ct2', Orig);
  }

  /** Outside the full policy the comparison is symmetric. */
  lemma PartialScopeSymmetric(ct1: Record, ct2: Record, flags: bv32)
    requires flags != NfctCmpAll
    ensures Compare(ct1, ct2, flags) == Compare(ct2, ct1, flags)
  {
    TupleCheckSymmetric(ct1, ct2, Orig);
    TupleCheckSymmetric(ct1, ct2, Repl);
  }

  /** The full policy is symmetric too once neither the status nor the
      timeout is carried by both records. */
  lemma FullScopeSymmetricWithoutStatusOrTimeout(ct1: Record, ct2: Record)
    requires !BothHave(ct1, ct2, Status) && !BothHave(ct1, ct2, Timeout)
    ensures Compare(ct1, ct2, NfctCmpAll) == Compare(ct2, ct1, NfctCmpAll)
  {
    TupleCheckSymmetric(ct1, ct2, Orig);
    TupleCheckSymmetric(ct1, ct2, Repl);
  }
}
