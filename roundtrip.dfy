/** The decoder reads back what the reference encoder writes. Decoding, at
    any position of any input, bytes that are the encoding of a well-formed
    value gives the value back and stops right after its last byte. Every
    lemma names the end position it promises, so that the positions that
    one step produces are the very terms the next step consumes. */
module RoundTrip {
  import opened Wire
  import opened Raw
  import opened Spec
  import opened Encoding

  /** The bytes of `s` from position `p` on start with `bs`. */
  predicate At(s: seq<byte>, p: nat, bs: seq<byte>) {
    p + |bs| <= |s| && s[p..p + |bs|] == bs
  }

  /** Bytes that start with `a + b` start with `a`, and `b` follows at `m`. */
  lemma AtSplit(s: seq<byte>, p: nat, a: seq<byte>, b: seq<byte>, m: nat)
    requires At(s, p, a + b) && m == p + |a|
    ensures At(s, p, a) && At(s, m, b)
  {
    assert s[p..m] == (a + b)[..|a|];
    assert s[m..m + |b|] == (a + b)[|a|..];
  }

  lemma ReadSignedAt(s: seq<byte>, p: nat, n: int, width: nat)
    requires 1 <= width && -128 * Pow256(width - 1) <= n < 128 * Pow256(width - 1)
    requires At(s, p, SignedBytes(n, width))
    ensures ReadSigned(s, p, width) == Got(n, p + width)
  {
  }

  lemma ReadUnsignedAt(s: seq<byte>, p: nat, u: nat, width: nat)
    requires u < Pow256(width) && At(s, p, UnsignedBytes(u, width))
    ensures ReadUnsigned(s, p, width) == Got(u, p + width)
  {
  }

  lemma ReadStringAt(s: seq<byte>, p: nat, bs: seq<byte>)
    requires |bs| < 0x1_0000 && At(s, p, EncodeString(bs))
    ensures ReadBareString(s, p) == Got(bs, p + 2 + |bs|)
  {
    Pow256Values();
    AtSplit(s, p, UnsignedBytes(|bs|, 2), bs, p + 2);
    ReadUnsignedAt(s, p, |bs|, 2);
  }

  /** Decoding, with its own tag, bytes that encode a well-formed value gives
      the value back and ends right after them, at `q`. */
  lemma {:induction false} DecodeEncode(s: seq<byte>, p: nat, v: Value, q: nat)
    requires WellFormed(v) && At(s, p, Encode(v)) && q == p + |Encode(v)|
    ensures DecodeAny(s, p, ValueTag(v)) == Got(v, q)
    decreases v, 1
  {
    Pow256Values();
    match v
    case Byte(n) => ReadSignedAt(s, p, n, 1);
    case Short(n) => ReadSignedAt(s, p, n, 2);
    case Int(n) => ReadSignedAt(s, p, n, 4);
    case Long(n) => ReadSignedAt(s, p, n, 8);
    case Float(bits) => ReadUnsignedAt(s, p, bits, 4);
    case Double(bits) => ReadUnsignedAt(s, p, bits, 8);
    case Str(bs) => ReadStringAt(s, p, bs);
    case Sequence(k, es) => DecodeEncodeSequence(s, p, k, es, q);
    case Compound(entries) => DecodeEncodeCompound(s, p, entries, q);
  }

  /** A sequence header reads back as the element tag and the length. */
  lemma SeqHeaderAt(s: seq<byte>, p: nat, k: SeqKind, n: nat, m: nat)
    requires n < -I32_MIN && At(s, p, SeqHeader(k, n)) && m == p + |SeqHeader(k, n)|
    ensures k.ListOf? ==> OpenList(s, p) == Got(SeqHead(k.elemTag, n), m)
    ensures !k.ListOf? ==> OpenArray(s, p, ElemTag(k)) == Got(SeqHead(ElemTag(k), n), m)
  {
    Pow256Values();
    if k.ListOf? {
      AtSplit(s, p, [k.elemTag], SignedBytes(n, 4), p + 1);
      ReadSignedAt(s, p + 1, n, 4);
    } else {
      assert SeqHeader(k, n) == SignedBytes(n, 4);
      ReadSignedAt(s, p, n, 4);
    }
  }

  /** A sequence decoder, after its header, yields the sequence with the
      kind its tag names. */
  lemma SequenceStep(s: seq<byte>, p: nat, k: SeqKind, es: seq<Value>, m: nat, q: nat)
    requires p <= |s| && |es| < -I32_MIN
    requires k.ListOf? ==> OpenList(s, p) == Got(SeqHead(k.elemTag, |es|), m)
    requires !k.ListOf? ==> OpenArray(s, p, ElemTag(k)) == Got(SeqHead(ElemTag(k), |es|), m)
    requires m <= |s| && ElementsFrom(s, m, ElemTag(k), |es|, 0) == Got(es, q)
    ensures DecodeAny(s, p, ValueTag(Sequence(k, es))) == Got(Sequence(k, es), q)
  {
  }

  lemma {:induction false} DecodeEncodeSequence(
    s: seq<byte>, p: nat, k: SeqKind, es: seq<Value>, q: nat)
    requires WellFormed(Sequence(k, es)) && At(s, p, Encode(Sequence(k, es)))
    requires q == p + |Encode(Sequence(k, es))|
    ensures DecodeAny(s, p, ValueTag(Sequence(k, es))) == Got(Sequence(k, es), q)
    decreases Sequence(k, es), 0
  {
    var m := p + |SeqHeader(k, |es|)|;
    AtSplit(s, p, SeqHeader(k, |es|), EncodeElems(es), m);
    SeqHeaderAt(s, p, k, |es|, m);
    DecodeEncodeElements(s, m, es, ElemTag(k), |es|, 0, q);
    SequenceStep(s, p, k, es, m, q);
  }

  /** One step of a sequence decoder: the first element, then the rest. */
  lemma ElementsStep(s: seq<byte>, p: nat, tag: byte, length: int, current: int,
                     es: seq<Value>, m: nat, q: nat)
    requires p <= |s| && es != [] && current != length
    requires DecodeAny(s, p, tag) == Got(es[0], m)
    requires ElementsFrom(s, m, tag, length, current + 1) == Got(es[1..], q)
    ensures ElementsFrom(s, p, tag, length, current) == Got(es, q)
  {
    assert [es[0]] + es[1..] == es;
  }

  /** A sequence decoder with `|es|` elements to go reads back the encoded
      elements `es` and stops right after them. */
  lemma {:induction false} DecodeEncodeElements(
    s: seq<byte>, p: nat, es: seq<Value>, tag: byte, length: int, current: int, q: nat)
    requires forall i | 0 <= i < |es| :: ValueTag(es[i]) == tag && WellFormed(es[i])
    requires At(s, p, EncodeElems(es)) && q == p + |EncodeElems(es)|
    requires length == current + |es|
    ensures ElementsFrom(s, p, tag, length, current) == Got(es, q)
    decreases es
  {
    if es != [] {
      var m := p + |Encode(es[0])|;
      AtSplit(s, p, Encode(es[0]), EncodeElems(es[1..]), m);
      DecodeEncode(s, p, es[0], m);
      DecodeEncodeElements(s, m, es[1..], tag, length, current + 1, q);
      ElementsStep(s, p, tag, length, current, es, m, q);
    }
  }

  /** An entry header: a non-End tag byte, then the key as a string. */
  lemma KeyAt(s: seq<byte>, p: nat, t: byte, key: seq<byte>, m: nat)
    requires t != TAG_END && |key| < 0x1_0000 && At(s, p, EntryHeader(t, key))
    requires m == p + 3 + |key|
    ensures KeyFrom(s, p) == Got(Some((t, key)), m)
  {
    AtSplit(s, p, [t], EncodeString(key), p + 1);
    assert s[p] == s[p..p + 1][0];
    ByteAsI8(s, p);
    ReadStringAt(s, p + 1, key);
  }

  /** One step of a compound decoder: an entry, then the rest. */
  lemma EntriesStep(s: seq<byte>, p: nat, es: seq<Entry>, m1: nat, m: nat, q: nat)
    requires p <= |s| && es != []
    requires KeyFrom(s, p) == Got(Some((ValueTag(es[0].value), es[0].key)), m1)
    requires DecodeAny(s, m1, ValueTag(es[0].value)) == Got(es[0].value, m)
    requires EntriesFrom(s, m) == Got(es[1..], q)
    ensures EntriesFrom(s, p) == Got(es, q)
  {
    assert [Entry(es[0].key, es[0].value)] + es[1..] == es;
  }

  /** A compound decoder reads back the encoded entries `es`, End included,
      and stops right after End. */
  lemma {:induction false} DecodeEncodeEntries(s: seq<byte>, p: nat, es: seq<Entry>, q: nat)
    requires forall i | 0 <= i < |es| :: |es[i].key| < 0x1_0000 && WellFormed(es[i].value)
    requires At(s, p, EncodeEntries(es)) && q == p + |EncodeEntries(es)|
    ensures EntriesFrom(s, p) == Got(es, q)
    decreases es
  {
    if es == [] {
      assert s[p] == s[p..p + 1][0];
    } else {
      var e := es[0];
      var m := p + |EncodeEntry(e)|;
      var m1 := p + 3 + |e.key|;
      AtSplit(s, p, EncodeEntry(e), EncodeEntries(es[1..]), m);
      AtSplit(s, p, EntryHeader(ValueTag(e.value), e.key), Encode(e.value), m1);
      KeyAt(s, p, ValueTag(e.value), e.key, m1);
      DecodeEncode(s, m1, e.value, m);
      DecodeEncodeEntries(s, m, es[1..], q);
      EntriesStep(s, p, es, m1, m, q);
    }
  }

  lemma DecodeEncodeCompound(s: seq<byte>, p: nat, es: seq<Entry>, q: nat)
    requires WellFormed(Compound(es)) && At(s, p, Encode(Compound(es)))
    requires q == p + |Encode(Compound(es))|
    ensures DecodeAny(s, p, TAG_COMPOUND) == Got(Compound(es), q)
    decreases Compound(es), 0
  {
    DecodeEncodeEntries(s, p, es, q);
  }
}
