/** Consequences of the two directions of the round trip for the decoder as a
    whole: what it accepts is characterised exactly, it never depends on the
    bytes after the value it decodes, and `from_slice` hands back exactly the
    bytes after the root compound. */
module Properties {
  import opened Wire
  import opened Raw
  import opened Spec
  import opened Encoding
  import opened RoundTrip
  import opened Canonical

  /** `DecodeAny` succeeds with `v` ending at `q` exactly when the bytes
      from `p` to `q` are the encoding of the well-formed value `v` and
      `tag` is `v`'s tag. */
  lemma DecodeIffEncoded(s: seq<byte>, p: nat, tag: byte, v: Value, q: nat)
    requires p <= |s|
    ensures DecodeAny(s, p, tag) == Got(v, q)
            <==> WellFormed(v) && ValueTag(v) == tag && q == p + |Encode(v)| <= |s|
                 && s[p..q] == Encode(v)
  {
    if WellFormed(v) && ValueTag(v) == tag && q == p + |Encode(v)| <= |s| && s[p..q] == Encode(v) {
      DecodeEncode(s, p, v, q);
    }
    if DecodeAny(s, p, tag) == Got(v, q) {
      EncodeOfDecode(s, p, tag);
    }
  }

  /** The decoder reads nothing past the value it decodes: any input that
      agrees on the consumed bytes decodes to the same value and position. */
  lemma DecodeIgnoresRest(s: seq<byte>, s': seq<byte>, p: nat, tag: byte)
    requires p <= |s| && DecodeAny(s, p, tag).Got?
    requires DecodeAny(s, p, tag).next <= |s'|
    requires s'[p..DecodeAny(s, p, tag).next] == s[p..DecodeAny(s, p, tag).next]
    ensures DecodeAny(s', p, tag) == DecodeAny(s, p, tag)
  {
    var r := DecodeAny(s, p, tag);
    DecodeIffEncoded(s, p, tag, r.value, r.next);
    DecodeIffEncoded(s', p, tag, r.value, r.next);
  }

  /** The i32 length 0 is four zero bytes. */
  lemma ZeroLength()
    ensures SignedBytes(0, 4) == [0, 0, 0, 0]
  {
    Pow256Values();
    assert UnsignedBytes(0, 0) == [];
    assert UnsignedBytes(0, 1) == [0];
    assert UnsignedBytes(0, 2) == [0, 0];
    assert UnsignedBytes(0, 3) == [0, 0, 0];
  }

  /** A list whose header gives length 0 consumes its 5 header bytes and
      nothing else. */
  lemma EmptyList(s: seq<byte>, p: nat, elemTag: byte)
    requires At(s, p, [elemTag, 0, 0, 0, 0])
    ensures DecodeAny(s, p, TAG_LIST) == Got(Sequence(ListOf(elemTag), []), p + 5)
  {
    var v := Sequence(ListOf(elemTag), []);
    ZeroLength();
    assert Encode(v) == [elemTag, 0, 0, 0, 0];
    DecodeEncode(s, p, v, p + 5);
  }

  /** An entry tag 0x00 ends a compound at once: no entries, and that one
      byte consumed. */
  lemma EmptyCompound(s: seq<byte>, p: nat)
    requires p < |s| && s[p] == TAG_END
    ensures EntriesFrom(s, p) == Got([], p + 1)
    ensures DecodeAny(s, p, TAG_COMPOUND) == Got(Compound([]), p + 1)
  {
    assert KeyFrom(s, p) == Got(None, p + 1);
  }

  /** `from_slice` on a document followed by arbitrary bytes gives back the
      root compound's entries and exactly the bytes that follow. */
  lemma FromSliceRoundTrip(name: seq<byte>, es: seq<Entry>, rest: seq<byte>)
    requires |name| < 0x1_0000 && WellFormed(Compound(es))
    ensures FromSlice(EncodeRoot(name, es) + rest, MapRequest) == Ok((rest, Compound(es)))
  {
    var s := EncodeRoot(name, es) + rest;
    var hdr := EntryHeader(TAG_COMPOUND, name);
    var body := Encode(Compound(es));
    var q := |hdr| + |body|;
    assert s == hdr + (body + rest);
    AtSplit(s, 0, hdr, body + rest, |hdr|);
    AtSplit(s, |hdr|, body, rest, q);
    AtSplit(s, 0, [TAG_COMPOUND], EncodeString(name), 1);
    ReadStringAt(s, 1, name);
    assert ReadHeader(s, 0) == Got((TAG_COMPOUND, name), |hdr|);
    DecodeEncodeEntries(s, |hdr|, es, q);
    assert s[q..] == rest;
  }

  /** A document whose root compound is empty: its End byte is the only
      byte of the payload and the remainder starts right after it. */
  lemma EmptyRoot(name: seq<byte>, rest: seq<byte>)
    requires |name| < 0x1_0000
    ensures FromSlice([TAG_COMPOUND] + EncodeString(name) + [TAG_END] + rest, MapRequest)
            == Ok((rest, Compound([])))
  {
    FromSliceRoundTrip(name, [], rest);
  }

  /** A root header with any value tag but 0x0a makes `from_slice` fail with
      `NoRootCompound`, whatever follows the header. */
  lemma RootNotCompound(tag: byte, name: seq<byte>, rest: seq<byte>)
    requires tag != TAG_END && tag != TAG_COMPOUND && |name| < 0x1_0000
    ensures FromSlice(EntryHeader(tag, name) + rest, MapRequest) == Err(NoRootCompound)
  {
    var s := EntryHeader(tag, name) + rest;
    AtSplit(s, 0, EntryHeader(tag, name), rest, 3 + |name|);
    AtSplit(s, 0, [tag], EncodeString(name), 1);
    ReadStringAt(s, 1, name);
  }

  /** A root header that is End alone has no compound either. */
  lemma RootEnd(rest: seq<byte>)
    ensures FromSlice([TAG_END] + rest, MapRequest) == Err(NoRootCompound)
  {
    assert ([TAG_END] + rest)[0] == TAG_END;
  }

  /** A document cut short is reported as the reader's end-of-input error,
      not as a missing root compound: no header at all, or a name whose
      2-byte length is incomplete. */
  lemma TruncatedRoot(name: seq<byte>)
    requires |name| < 0x1_0000
    ensures FromSlice([], MapRequest) == Err(UnexpectedEof)
    ensures FromSlice([TAG_COMPOUND, 0], MapRequest) == Err(UnexpectedEof)
    ensures FromSlice(EntryHeader(TAG_COMPOUND, name), MapRequest) == Err(UnexpectedEof)
  {
    var s := EntryHeader(TAG_COMPOUND, name);
    assert s == s + [];
    AtSplit(s, 0, [TAG_COMPOUND], EncodeString(name), 1);
    ReadStringAt(s, 1, name);
    assert EntriesFrom(s, |s|).Fail?;
  }

  /** The successful path of `from_slice`: a compound header, then the
      root's entries up to End. */
  lemma FromSliceAccepted(s: seq<byte>)
    requires FromSlice(s, MapRequest).Ok?
    ensures ReadHeader(s, 0).Got? && s[0] == TAG_COMPOUND
    ensures EntriesFrom(s, ReadHeader(s, 0).next).Got?
    ensures FromSlice(s, MapRequest)
            == Ok((s[EntriesFrom(s, ReadHeader(s, 0).next).next..],
                   Compound(EntriesFrom(s, ReadHeader(s, 0).next).value)))
  {
  }

  /** A root header that reads is the header of its name. */
  lemma HeaderEncoding(s: seq<byte>, tag: byte, name: seq<byte>, p: nat)
    requires ReadHeader(s, 0) == Got((tag, name), p) && tag != TAG_END
    ensures |name| < 0x1_0000 && p <= |s| && s[0..p] == EntryHeader(tag, name)
  {
    StringEncoding(s, 1);
    assert s[0..p] == [s[0]] + s[1..p];
  }

  /** A compound header followed by entries that decode: the reference
      encoding of the document, then whatever follows. */
  lemma DocumentEncoding(s: seq<byte>, name: seq<byte>, p: nat, es: seq<Entry>, q: nat)
    requires ReadHeader(s, 0) == Got((TAG_COMPOUND, name), p)
    requires p <= |s| && EntriesFrom(s, p) == Got(es, q)
    ensures |name| < 0x1_0000 && WellFormed(Compound(es))
    ensures s == EncodeRoot(name, es) + s[q..]
  {
    HeaderEncoding(s, TAG_COMPOUND, name, p);
    EncodeOfEntries(s, p);
    RootBytes(name, es);
    Adjacent(s, 0, p, q, EntryHeader(TAG_COMPOUND, name), EncodeEntries(es));
    Rejoin(s, q);
  }

  /** Whatever `from_slice` accepts is a document in reference encoding,
      named by its header, followed by the remainder it returns. */
  lemma FromSliceCanonical(s: seq<byte>)
    requires FromSlice(s, MapRequest).Ok?
    ensures ReadHeader(s, 0).Got? && |ReadHeader(s, 0).value.1| < 0x1_0000
    ensures WellFormed(FromSlice(s, MapRequest).value.1)
    ensures s == EncodeRoot(ReadHeader(s, 0).value.1, FromSlice(s, MapRequest).value.1.entries)
                 + FromSlice(s, MapRequest).value.0
  {
    FromSliceAccepted(s);
    var h := ReadHeader(s, 0);
    var e := EntriesFrom(s, h.next);
    DocumentEncoding(s, h.value.1, h.next, e.value, e.next);
  }

  /** The remainder `from_slice` returns starts right after the root
      compound's End byte. */
  lemma RemainderAfterEnd(s: seq<byte>)
    requires FromSlice(s, MapRequest).Ok?
    ensures var rest := FromSlice(s, MapRequest).value.0;
            |rest| < |s| && s[|s| - |rest| - 1] == TAG_END
  {
    var r := FromSlice(s, MapRequest);
    FromSliceCanonical(s);
    var doc := EncodeRoot(ReadHeader(s, 0).value.1, r.value.1.entries);
    var body := EncodeEntries(r.value.1.entries);
    assert doc == EntryHeader(TAG_COMPOUND, ReadHeader(s, 0).value.1) + body;
    assert s[|doc| - 1] == doc[|doc| - 1] == body[|body| - 1];
  }
}
