/** The decoder accepts only canonical input: whenever a decode succeeds, the
    bytes it consumed are exactly the reference encoding of the value it
    returns. With module RoundTrip this makes decoding and encoding inverse
    bijections between well-formed values and the byte strings the decoder
    accepts. */
module Canonical {
  import opened Wire
  import opened Raw
  import opened Spec
  import opened Encoding

  /** Adjacent pieces of the input join up. */
  lemma Adjacent(s: seq<byte>, p: nat, q: nat, n: nat, a: seq<byte>, b: seq<byte>)
    requires p <= q <= n <= |s| && s[p..q] == a && s[q..n] == b
    ensures s[p..n] == a + b
  {
    assert s[p..n] == s[p..q] + s[q..n];
  }

  /** The input is what comes before `q` and what comes after it. */
  lemma Rejoin(s: seq<byte>, q: nat)
    requires q <= |s|
    ensures s == s[0..q] + s[q..]
  {
  }

  /** A signed number that reads is the encoding of the number read. */
  lemma SignedEncoding(s: seq<byte>, p: nat, width: nat)
    requires 1 <= width && ReadSigned(s, p, width).Got?
    ensures s[p..p + width] == SignedBytes(ReadSigned(s, p, width).value, width)
  {
    SignedOfBytes(s[p..p + width]);
  }

  /** An unsigned number that reads is the encoding of the number read. */
  lemma UnsignedEncoding(s: seq<byte>, p: nat, width: nat)
    requires ReadUnsigned(s, p, width).Got?
    ensures s[p..p + width] == UnsignedBytes(ReadUnsigned(s, p, width).value, width)
  {
    BigEndianBytes(s[p..p + width]);
  }

  /** A string that reads is the encoding of the bytes read. */
  lemma StringEncoding(s: seq<byte>, p: nat)
    requires ReadBareString(s, p).Got?
    ensures s[p..ReadBareString(s, p).next] == EncodeString(ReadBareString(s, p).value)
  {
    var r := ReadBareString(s, p);
    Pow256Values();
    BigEndianBytes(s[p..p + 2]);
    assert s[p..r.next] == s[p..p + 2] + s[p + 2..r.next];
  }

  /** A scalar payload that decodes is the encoding of its value. */
  lemma EncodeOfScalar(s: seq<byte>, p: nat, tag: byte)
    requires TAG_BYTE <= tag <= TAG_DOUBLE || tag == TAG_STRING
    requires DecodeScalar(s, p, tag).Got?
    ensures s[p..DecodeScalar(s, p, tag).next] == Encode(DecodeScalar(s, p, tag).value)
  {
    Pow256Values();
    if tag == TAG_BYTE {
      SignedEncoding(s, p, 1);
    } else if tag == TAG_SHORT {
      SignedEncoding(s, p, 2);
    } else if tag == TAG_INT {
      SignedEncoding(s, p, 4);
    } else if tag == TAG_LONG {
      SignedEncoding(s, p, 8);
    } else if tag == TAG_FLOAT {
      UnsignedEncoding(s, p, 4);
    } else if tag == TAG_DOUBLE {
      UnsignedEncoding(s, p, 8);
    } else {
      StringEncoding(s, p);
    }
  }

  /** Whatever value `DecodeAny` returns, the bytes it consumed are that
      value's encoding. */
  lemma {:induction false} EncodeOfDecode(s: seq<byte>, p: nat, tag: byte)
    requires p <= |s| && DecodeAny(s, p, tag).Got?
    ensures s[p..DecodeAny(s, p, tag).next] == Encode(DecodeAny(s, p, tag).value)
    decreases |s| - p, 1
  {
    if TAG_BYTE <= tag <= TAG_DOUBLE || tag == TAG_STRING {
      EncodeOfScalar(s, p, tag);
    } else if tag in {TAG_BYTE_ARRAY, TAG_LIST, TAG_INT_ARRAY, TAG_LONG_ARRAY} {
      EncodeOfSequence(s, p, tag);
    } else {
      EncodeOfEntries(s, p);
    }
  }

  /** The header a sequence decoder opens is the header of the sequence it
      yields, and the elements follow it. */
  lemma SeqHeaderEncoding(s: seq<byte>, p: nat, tag: byte)
    requires p <= |s| && tag in {TAG_BYTE_ARRAY, TAG_LIST, TAG_INT_ARRAY, TAG_LONG_ARRAY}
    requires DecodeSequence(s, p, tag).Got?
    ensures var r := DecodeSequence(s, p, tag);
            var q := p + if tag == TAG_LIST then 5 else 4;
            && r.value.Sequence? && q <= |s| && |r.value.elems| < -I32_MIN
            && s[p..q] == SeqHeader(r.value.kind, |r.value.elems|)
            && ElementsFrom(s, q, ElemTag(r.value.kind), |r.value.elems|, 0)
               == Got(r.value.elems, r.next)
  {
    Pow256Values();
    var q := p + if tag == TAG_LIST then 5 else 4;
    if tag == TAG_LIST {
      SignedOfBytes(s[p + 1..q]);
      assert s[p..q] == [s[p]] + s[p + 1..q];
    } else {
      SignedOfBytes(s[p..q]);
    }
  }

  /** A sequence header, then its elements: the encoding of the sequence. */
  lemma SequenceEncodingStep(s: seq<byte>, p: nat, q: nat, n: nat, k: SeqKind, es: seq<Value>)
    requires p <= q <= n <= |s| && WellFormed(Sequence(k, es))
    requires s[p..q] == SeqHeader(k, |es|) && s[q..n] == EncodeElems(es)
    ensures s[p..n] == Encode(Sequence(k, es))
  {
    SequenceBytes(k, es);
    Adjacent(s, p, q, n, SeqHeader(k, |es|), EncodeElems(es));
  }

  lemma {:induction false} EncodeOfSequence(s: seq<byte>, p: nat, tag: byte)
    requires p <= |s| && tag in {TAG_BYTE_ARRAY, TAG_LIST, TAG_INT_ARRAY, TAG_LONG_ARRAY}
    requires DecodeSequence(s, p, tag).Got?
    ensures s[p..DecodeSequence(s, p, tag).next] == Encode(DecodeSequence(s, p, tag).value)
    decreases |s| - p, 0
  {
    var r := DecodeSequence(s, p, tag);
    var k, es := r.value.kind, r.value.elems;
    var q := p + if tag == TAG_LIST then 5 else 4;
    SeqHeaderEncoding(s, p, tag);
    EncodeOfElements(s, q, ElemTag(k), |es|, 0);
    SequenceEncodingStep(s, p, q, r.next, k, es);
  }

  /** The elements a sequence decoder yields are the encoding of the bytes
      it consumed. */
  lemma {:induction false} EncodeOfElements(s: seq<byte>, p: nat, tag: byte, length: int, current: int)
    requires p <= |s| && ElementsFrom(s, p, tag, length, current).Got?
    ensures s[p..ElementsFrom(s, p, tag, length, current).next]
            == EncodeElems(ElementsFrom(s, p, tag, length, current).value)
    decreases |s| - p, 2
  {
    var r := ElementsFrom(s, p, tag, length, current);
    if current != length {
      var d := DecodeAny(s, p, tag);
      EncodeOfDecode(s, p, tag);
      EncodeOfElements(s, d.next, tag, length, current + 1);
      var rest := ElementsFrom(s, d.next, tag, length, current + 1);
      assert r.value == [d.value] + rest.value;
      assert r.value[1..] == rest.value;
      Adjacent(s, p, d.next, r.next, Encode(d.value), EncodeElems(rest.value));
    }
  }

  /** The bytes of one entry header that decodes: its tag, then its key. */
  lemma KeyEncoding(s: seq<byte>, p: nat)
    requires KeyFrom(s, p).Got? && KeyFrom(s, p).value.Some?
    ensures |KeyFrom(s, p).value.value.1| < 0x1_0000
    ensures s[p..KeyFrom(s, p).next]
            == EntryHeader(KeyFrom(s, p).value.value.0, KeyFrom(s, p).value.value.1)
  {
    var k := KeyFrom(s, p);
    var key := k.value.value.1;
    assert ReadBareString(s, p + 1) == Got(key, k.next);
    StringEncoding(s, p + 1);
    assert s[p..p + 1] == [s[p]];
    Adjacent(s, p, p + 1, k.next, [s[p]], EncodeString(key));
  }

  /** One entry's bytes, then the rest: the encoding of the entries. */
  lemma EntriesEncodingStep(s: seq<byte>, p: nat, tag: byte, key: seq<byte>, p1: nat,
                            v: Value, p2: nat, es: seq<Entry>, p3: nat)
    requires p <= p1 <= p2 <= p3 <= |s| && |key| < 0x1_0000 && WellFormed(v)
    requires ValueTag(v) == tag
    requires forall i | 0 <= i < |es| :: |es[i].key| < 0x1_0000 && WellFormed(es[i].value)
    requires s[p..p1] == EntryHeader(tag, key) && s[p1..p2] == Encode(v)
    requires s[p2..p3] == EncodeEntries(es)
    ensures s[p..p3] == EncodeEntries([Entry(key, v)] + es)
  {
    var all := [Entry(key, v)] + es;
    assert all[0] == Entry(key, v) && all[1..] == es;
    Adjacent(s, p, p1, p2, EntryHeader(tag, key), Encode(v));
    Adjacent(s, p, p2, p3, EntryHeader(tag, key) + Encode(v), EncodeEntries(es));
  }

  /** The entries a compound decoder yields, End included, are the bytes it
      consumed. */
  lemma {:induction false} EncodeOfEntries(s: seq<byte>, p: nat)
    requires p <= |s| && EntriesFrom(s, p).Got?
    ensures s[p..EntriesFrom(s, p).next] == EncodeEntries(EntriesFrom(s, p).value)
    decreases |s| - p, 0
  {
    var r := EntriesFrom(s, p);
    var k := KeyFrom(s, p);
    if k.value.None? {
      assert s[p..r.next] == [s[p]];
    } else {
      var tag, key := k.value.value.0, k.value.value.1;
      var d := DecodeAny(s, k.next, tag);
      KeyEncoding(s, p);
      EncodeOfDecode(s, k.next, tag);
      EncodeOfEntries(s, d.next);
      var rest := EntriesFrom(s, d.next);
      EntriesEncodingStep(s, p, tag, key, k.next, d.value, d.next, rest.value, rest.next);
    }
  }
}
