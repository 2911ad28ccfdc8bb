# Selective comparison of connection-tracking records

A Dafny model of the comparison engine of libnetfilter_conntrack,
`src/conntrack/compare.c`. The engine decides whether two connection-tracking
records "match" under a caller-chosen policy.

A record (`Conntrack.Record`) holds the following:
- an ORIGINAL and a REPLY tuple, each with an L3 family, an L4 protocol
  number, and IPv4 and IPv6 source and destination addresses;
- the metadata id, mark, timeout, status mask and TCP state;
- a presence set of attribute identifiers (`Conntrack.Attr`).

Every field check runs only when both records carry that field's attribute.
Otherwise the field is don't-care.

The engine is modelled in four modules:

- `Comparison` holds the engine as written.
  - `CmpTuple` is `cmp_orig` and `cmp_repl`, written as one function with a
    direction parameter. `CmpOrig` and `CmpRepl` are thin wrappers over it.
  - `CmpMeta` is `cmp_meta`. Its timeout and status steps are `TimeoutStep`
    and `StatusStep`.
  - `Compare` is `__compare`.
  - Each function keeps the source's chain of early "no match" exits. Each is
    proved equal to a declarative table: "every attribute that is in scope and
    present in both records agrees". The per-attribute relation is stated once,
    in `AttrAgrees`, for two readings (`Variant`): `AsWritten`, which is what
    the engine does, and `Intended`, which differs only in the two defects
    below. `ScopeSplits` shows that agreement over a policy's scope is the
    metadata table and the tuple tables of the requested directions.
- `CompareFlags` holds the policy options. Their numeric values live in a
  header that is not part of this model, so they are uninterpreted constants.
  `TimeoutRelMask` is `NFCT_CMP_TIMEOUT_LE | NFCT_CMP_TIMEOUT_GT`, exactly as
  the source builds it.
- `StatusBits` defines status inclusion: no status flag of `s1` is missing
  from `s2`. `Comparison.StatusStep` proves that the mask test
  `(s1 & s2) == s1` is exactly this inclusion.
  - `MissingFlags(s1, s2)` is the set of flags of `s1` that are clear in `s2`.
  - Inclusion holds when that set is empty.
- `CompareProps` holds the properties that relate several calls.
- `CorrectedComparison` holds the two defects below. Each is exhibited on the
  engine as written. The corrected engine is proved equal to the `Intended`
  table.

The model follows the code literally in two places where the code departs
from what its own structure evidently means:
- The IPv6 steps report "no match" when the two addresses are EQUAL. Every
  other tuple step, IPv4 included, reports a mismatch only when the values
  differ, so the IPv6 steps evidently should too.
- When no relational timeout option is requested, equal timeouts still fail
  the timeout step. The `else` branch leaves the result at 0 unless GT, LT or
  EQ is requested. The first exit of the step (compare.c:122-124) rejects
  unequal timeouts exactly when no relational option is requested, which
  implies that equal timeouts should then pass.

Both are listed under Findings.

## Model

| member | source | states |
|---|---|---|
| `Comparison.ScopeSplits` | src/conntrack/compare.c:154-170 | Agreement over a policy's scope is exactly: for NFCT_CMP_ALL, the metadata table and both tuple tables; otherwise the tuple table of each requested direction |
| `Comparison.CmpTuple` | src/conntrack/compare.c:10-100 | A direction's tuple check passes iff every tuple attribute of that direction present in both records agrees: the L3 family is equal or `AF_UNSPEC` on either side, L4 protocol and IPv4 addresses are equal, and IPv6 addresses DIFFER |
| `Comparison.CmpOrig` | src/conntrack/compare.c:10-54 | `cmp_orig` passes iff every ORIGINAL tuple attribute present in both records agrees; nothing outside the original tuple is involved |
| `Comparison.CmpRepl` | src/conntrack/compare.c:56-100 | `cmp_repl` passes iff every REPLY tuple attribute present in both records agrees; nothing outside the reply tuple is involved |
| `Comparison.TimeoutStep` | src/conntrack/compare.c:116-139 | The timeout step passes only if a requested relation (GT and t1 > t2, LT and t1 < t2, EQ and t1 == t2) holds, and, without a relational mode, only if the timeouts are also equal |
| `Comparison.StatusStep` | src/conntrack/compare.c:141-144 | The status step passes iff no status flag of the first record is missing from the second |
| `Comparison.CmpMeta` | src/conntrack/compare.c:102-152 | `cmp_meta` passes iff id, mark and TCP state are equal, the timeout step passes, and status is included, each checked only where both records carry the attribute |
| `Comparison.Compare` | src/conntrack/compare.c:154-170 | `__compare` passes iff every attribute present in both records and in the policy's scope agrees; the scope is all attributes when flags equal NFCT_CMP_ALL, else the tuples of the requested directions |
| `StatusBits.MissingFlags` | src/conntrack/compare.c:141-144 | The missing flags are exactly the flags of s1 that are clear in s2: all set in s1, none set in s2, and together with the shared flags they make up s1 |
| `StatusBits.IncludedFlagIsSet` | src/conntrack/compare.c:141-144 | When the status test passes, whatever part of a group of flags is set in s1 is also set in s2 |
| `StatusBits.MissingFlagBreaksInclusion` | src/conntrack/compare.c:141-144 | A flag set in s1 and clear in s2 makes the status test fail |
| `StatusBits.InclusionIsPreorder` | src/conntrack/compare.c:141-144 | The status test accepts every mask against itself and is transitive |
| `CompareProps.PresenceGate` | src/conntrack/compare.c:13-149 | Changing any value of either record outside the attributes both carry leaves `cmp_orig`, `cmp_repl`, `cmp_meta` and `__compare` unchanged |
| `CompareProps.AbsentAttributeIsDontCare` | src/conntrack/compare.c:13-149 | An attribute missing from either record is don't-care: changing its value on either record changes no result |
| `CompareProps.NothingInCommonMatches` | src/conntrack/compare.c:10-170 | Records with no attribute in common match under every check and every policy |
| `CompareProps.UnspecIsWildcard` | src/conntrack/compare.c:13-19 | With `AF_UNSPEC` on either side, the tuple check behaves as if the L3 attribute were absent, even when both records carry it |
| `CompareProps.L3FamilyMismatch` | src/conntrack/compare.c:13-19 | Both present, neither `AF_UNSPEC`, differing L3 families: the tuple check fails |
| `CompareProps.Ipv4IsExact` | src/conntrack/compare.c:27-37 | With both present, differing IPv4 addresses fail the tuple check, and equal ones contribute nothing |
| `CompareProps.Ipv6IsInverted` | src/conntrack/compare.c:39-51 | With both present, equal IPv6 addresses fail the tuple check, and differing ones contribute nothing |
| `CompareProps.Ipv6RecordNeverMatchesItself` | src/conntrack/compare.c:39-51 | A record carrying an IPv6 source or destination never passes that direction's tuple check against itself |
| `CompareProps.TupleCheckSymmetric` | src/conntrack/compare.c:10-100 | `cmp_orig(a, b) == cmp_orig(b, a)`, and likewise for `cmp_repl` |
| `CompareProps.TupleCheckIsDirectionLocal` | src/conntrack/compare.c:10-100 | A direction's tuple check is unchanged by any change outside that direction's tuples and presence bits |
| `CompareProps.MetaSplitsPerAttribute` | src/conntrack/compare.c:102-152 | Each metadata attribute is an independent conjunct of `cmp_meta` |
| `CompareProps.StatusIsInclusion` | src/conntrack/compare.c:141-144 | With both records carrying the status, `cmp_meta` fails iff it fails without the status or the first record has a status flag the second lacks |
| `CompareProps.StatusIsOneWay` | src/conntrack/compare.c:141-144 | Status {A} against {A, B} passes, while {A, B} against {A} fails |
| `CompareProps.GtSuffices` | src/conntrack/compare.c:120-128 | GT requested and t1 > t2: the timeout step passes |
| `CompareProps.NoRelationRejects` | src/conntrack/compare.c:116-139 | With none of GT, LT, EQ requested, the timeout step fails, even for equal timeouts |
| `CompareProps.LtOutsideMaskIsIgnored` | src/conntrack/compare.c:120-131 | An LT request sharing no bit with LE-or-GT never passes differing timeouts, in either order: the exact-equality exit comes first |
| `CompareProps.FullScopeIsConjunction` | src/conntrack/compare.c:158-161 | With flags equal to NFCT_CMP_ALL, the result is `cmp_meta && cmp_orig && cmp_repl` |
| `CompareProps.PartialScopeRunsRequestedTuples` | src/conntrack/compare.c:163-169 | For any other flags, the result is (ORIG requested ⇒ `cmp_orig`) and (REPL requested ⇒ `cmp_repl`) |
| `CompareProps.PartialScopeIgnoresMeta` | src/conntrack/compare.c:163-169 | For any other flags, metadata values and metadata presence bits never affect the result |
| `CompareProps.EmptyScopeMatches` | src/conntrack/compare.c:163-169 | For any other flags, requesting neither direction always gives a match |
| `CompareProps.OrigScopeIgnoresReply` | src/conntrack/compare.c:163-169 | With REPL not requested (and not the full policy), the reply tuples never affect the result |
| `CompareProps.PartialScopeSymmetric` | src/conntrack/compare.c:163-169 | Outside the full policy, the comparison is symmetric |
| `CompareProps.FullScopeSymmetricWithoutStatusOrTimeout` | src/conntrack/compare.c:158-161 | The full policy is symmetric when the status and the timeout are not carried by both records |
| `CorrectedComparison.AsWrittenIpv6SelfMismatch` | src/conntrack/compare.c:39-44 | As written, a record carrying an original IPv6 source fails against itself under every policy that compares the original tuple |
| `CorrectedComparison.AsWrittenEqualTimeoutsRejected` | src/conntrack/compare.c:122-137 | As written, timeouts 30 and 30 under flags 0 fail the timeout step |
| `CorrectedComparison.AsWrittenFullCompareRejectsTimeouts` | src/conntrack/compare.c:116-161 | As written, if NFCT_CMP_ALL carries none of GT, LT, EQ, no full comparison of two records that both carry a timeout matches, not even a record against itself |
| `CorrectedComparison.CmpTupleFixed` | src/conntrack/compare.c:10-100 | Corrected tuple check: passes iff every present tuple attribute agrees, with IPv6 addresses agreeing when equal |
| `CorrectedComparison.TimeoutStepFixed` | src/conntrack/compare.c:116-139 | Corrected timeout step: without a relational mode, it passes iff the timeouts are equal; otherwise iff a requested relation holds |
| `CorrectedComparison.CmpMetaFixed` | src/conntrack/compare.c:102-152 | Corrected `cmp_meta`: passes iff every present metadata attribute agrees under the corrected timeout rule |
| `CorrectedComparison.CompareFixed` | src/conntrack/compare.c:154-170 | Corrected `__compare`: passes iff every attribute in scope and present in both agrees under the intended relations |
| `CorrectedComparison.FixedIpv6IsExact` | src/conntrack/compare.c:39-51 | Corrected, differing IPv6 addresses fail the tuple check, and equal ones contribute nothing |
| `CorrectedComparison.FixedCompareReflexive` | src/conntrack/compare.c:154-170 | Corrected, every record matches itself under every policy, except a full policy that requests a relational timeout mode without EQ |
| `CorrectedComparison.FixedEqualTimeoutsAccepted` | src/conntrack/compare.c:122-124 | Corrected, with no relational mode, equal timeouts pass |
| `CorrectedComparison.FixedAgreesElsewhere` | src/conntrack/compare.c:154-170 | The corrections change no result unless both records carry an IPv6 address or a timeout |

## Left out

- Record construction, attribute setters and netlink decoding are not modelled. Records are given as values.
- The bitset behind `test_bit` is not modelled. Presence is a `set<Attr>` per record.
- Attributes that this file never reads, such as ports and counters, are not modelled. They are absent from `Attr` and `Record`, because no check here depends on them.
- The numeric values of the NFCT_CMP_* options are not modelled. They are defined in a header that is not part of this model, so the constants are uninterpreted `bv32` values, and no relation between them is assumed. For example, the model does not assume that EQ or LT is contained in LE.
- The ATTR_* identifiers are modelled as constructors of `Conntrack.Attr`. That makes them pairwise distinct, as the header's enumeration makes them; their numeric values are not modelled.
- The value of `AF_UNSPEC` is not modelled. It is an uninterpreted constant, assumed only to fit in the 8-bit L3 family field.
- The union of an IPv4 address with the first word of the IPv6 address is not modelled. The record layout is not part of this model, so `srcV4`/`srcV6` and `dstV4`/`dstV6` are separate fields.
- `memcmp` over the 16 address bytes is modelled as equality of the four 32-bit words. The two are the same test.
- The C `int` results 0 and 1 are modelled as `bool`.
- Concurrency and callers' use of the result are not modelled. The engine is pure and single-call.

## Findings

| source | as written | input that shows it | evidently intended | confidence | as-written member | corrected member |
|---|---|---|---|---|---|---|
| src/conntrack/compare.c:39-51 (same at :85-97) | an IPv6 step returns "no match" when `memcmp(...) == 0`, i.e. when the addresses are equal | any record carrying ATTR_ORIG_IPV6_SRC compared with itself under NFCT_CMP_ORIG | "no match" only when the addresses differ, as for IPv4 | high; not executed | `CorrectedComparison.AsWrittenIpv6SelfMismatch` | `CorrectedComparison.CmpTupleFixed` |
| src/conntrack/compare.c:122-137 | with none of GT, LT, EQ requested, equal timeouts reach the `else` branch and fail with `ret == 0` | timeouts 30 and 30 with flags 0; and, if the value of NFCT_CMP_ALL carries none of GT, LT, EQ, any two records that both carry a timeout under NFCT_CMP_ALL (`AsWrittenFullCompareRejectsTimeouts`) | without a relational mode, equal timeouts pass (exact comparison) | medium; not executed | `CorrectedComparison.AsWrittenEqualTimeoutsRejected` | `CorrectedComparison.TimeoutStepFixed` |
