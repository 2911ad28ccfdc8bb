/**
 Data model of a connection-tracking record as far as the comparison engine
 reads it: one address/protocol tuple per direction, the metadata fields
 (id, mark, timeout, status, TCP state) and the presence set that says which
 of those fields were populated.
 */
module Conntrack {

  /** Fixed-width unsigned integers of the C record (`u_int8_t`, `u_int32_t`). */
  newtype u8 = x: int | 0 <= x < 0x100
  newtype u32 = x: int | 0 <= x < 0x1_0000_0000

  /** The `AF_UNSPEC` address family. Its numeric value is defined outside
      this model, so it is left uninterpreted. */
  const AfUnspec: u8

  /** A tracked flow is seen in two directions and nothing else. */
  datatype Direction = Orig | Repl

  /** An IPv6 address as the four 32-bit words that are compared byte by byte;
      byte-wise equality of the 16 bytes is equality of the four words. */
  datatype Ipv6 = Ipv6(w0: u32, w1: u32, w2: u32, w3: u32)

  /** One direction's tuple: L3 family, L4 protocol number, IPv4 and IPv6
      source and destination. Ports are not read by the comparison. */
  datatype Tuple = Tuple(
    l3protonum: u8,
    protonum: u8,
    srcV4: u32,
    dstV4: u32,
    srcV6: Ipv6,
    dstV6: Ipv6)

  /** The six per-direction tuple fields the comparison looks at. */
  datatype TupleField = L3Proto | L4Proto | Ipv4Src | Ipv4Dst | Ipv6Src | Ipv6Dst

  /** Attribute identifiers: `TupleAttr(Orig, L3Proto)` stands for
      ATTR_ORIG_L3PROTO, `TupleAttr(Repl, Ipv6Dst)` for ATTR_REPL_IPV6_DST,
      and so on; the rest are the metadata attributes. */
  datatype Attr =
    | TupleAttr(dir: Direction, field: TupleField)
    | Id
    | Mark
    | Timeout
    | Status
    | TcpState

  /** A connection-tracking record. `attrs` is the presence set: a field whose
      attribute is not in it is unknown, not zero. */
  datatype Record = Record(
    orig: Tuple,
    repl: Tuple,
    id: u32,
    mark: u32,
    timeout: u32,
    status: bv32,
    tcpState: u8,
    attrs: set<Attr>)
  {
    /** The tuple of the given direction. */
    function TupleOf(dir: Direction): Tuple {
      match dir
      case Orig => orig
      case Repl => repl
    }

    /** Presence lookup, the `test_bit(ATTR_x, ct->set)` query. */
    predicate Has(a: Attr) {
      a in attrs
    }
  }

  /** A field takes part in a comparison only when both records carry it. */
  predicate BothHave(ct1: Record, ct2: Record, a: Attr) {
    ct1.Has(a) && ct2.Has(a)
  }

  /** The value stored under an attribute, used to state which fields a
      comparison may depend on. */
  datatype Value = Byte(b: u8) | Word(w: u32) | Addr6(addr: Ipv6) | Bits(bits: bv32)

  function TupleFieldValue(t: Tuple, f: TupleField): Value {
    match f
    case L3Proto => Byte(t.l3protonum)
    case L4Proto => Byte(t.protonum)
    case Ipv4Src => Word(t.srcV4)
    case Ipv4Dst => Word(t.dstV4)
    case Ipv6Src => Addr6(t.srcV6)
    case Ipv6Dst => Addr6(t.dstV6)
  }

  function FieldValue(ct: Record, a: Attr): Value {
    match a
    case TupleAttr(dir, f) => TupleFieldValue(ct.TupleOf(dir), f)
    case Id => Word(ct.id)
    case Mark => Word(ct.mark)
    case Timeout => Word(ct.timeout)
    case Status => Bits(ct.status)
    case TcpState => Byte(ct.tcpState)
  }

  /** A tuple is determined by its six field values. */
  lemma TupleFieldValuesDetermineTuple(t: Tuple, t': Tuple)
    requires forall f :: TupleFieldValue(t, f) == TupleFieldValue(t', f)
    ensures t == t'
  {
    assert TupleFieldValue(t, L3Proto) == TupleFieldValue(t', L3Proto);
    assert TupleFieldValue(t, L4Proto) == TupleFieldValue(t', L4Proto);
    assert TupleFieldValue(t, Ipv4Src) == TupleFieldValue(t', Ipv4Src);
    assert TupleFieldValue(t, Ipv4Dst) == TupleFieldValue(t', Ipv4Dst);
    assert TupleFieldValue(t, Ipv6Src) == TupleFieldValue(t', Ipv6Src);
    assert TupleFieldValue(t, Ipv6Dst) == TupleFieldValue(t', Ipv6Dst);
  }

  /** Every stored field of a record is the value of some attribute, so two
      records with the same presence set and the same value under every
      attribute are the same record. */
  lemma FieldValuesDetermineRecord(ct: Record, ct': Record)
    requires ct.attrs == ct'.attrs
    requires forall a :: FieldValue(ct, a) == FieldValue(ct', a)
    ensures ct == ct'
  {
    forall f: TupleField
      ensures TupleFieldValue(ct.orig, f) == TupleFieldValue(ct'.orig, f)
    {
      assert FieldValue(ct, TupleAttr(Orig, f)) == FieldValue(ct', TupleAttr(Orig, f));
    }
    forall f: TupleField
      ensures TupleFieldValue(ct.repl, f) == TupleFieldValue(ct'.repl, f)
    {
      assert FieldValue(ct, TupleAttr(Repl, f)) == FieldValue(ct', TupleAttr(Repl, f));
    }
    TupleFieldValuesDetermineTuple(ct.orig, ct'.orig);
    TupleFieldValuesDetermineTuple(ct.repl, ct'.repl);
    assert FieldValue(ct, Id) == FieldValue(ct', Id);
    assert FieldValue(ct, Mark) == FieldValue(ct', Mark);
    assert FieldValue(ct, Timeout) == FieldValue(ct', Timeout);
    assert FieldValue(ct, Status) == FieldValue(ct', Status);
    assert FieldValue(ct, TcpState) == FieldValue(ct', TcpState);
  }
}
