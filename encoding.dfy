/** A reference encoder for the NBT wire format: the bytes that the decoder
    reads back as a given value. It is the inverse the decoder is checked
    against (module RoundTrip); the crate's own serializer is not part of
    this model. */
module Encoding {
  import opened Wire
  import opened Raw

  /** The `width` big-endian bytes of an unsigned number. */
  function UnsignedBytes(u: nat, width: nat): (bs: seq<byte>)
    requires u < Pow256(width)
    ensures |bs| == width && BigEndian(bs) == u
  {
    if width == 0 then []
    else
      var init := UnsignedBytes(u / 256, width - 1);
      assert (init + [u % 256])[..width - 1] == init;
      init + [u % 256]
  }

  /** Splitting off the last byte of `q * 256 + b`. */
  lemma DivMod256(q: nat, b: byte)
    ensures (q * 256 + b) / 256 == q && (q * 256 + b) % 256 == b
  {
  }

  /** Reading big-endian bytes and writing the number back gives the bytes. */
  lemma {:induction false} BigEndianBytes(bs: seq<byte>)
    ensures UnsignedBytes(BigEndian(bs), |bs|) == bs
  {
    if bs != [] {
      var init := bs[..|bs| - 1];
      var last := bs[|bs| - 1];
      BigEndianBytes(init);
      DivMod256(BigEndian(init), last);
      assert bs == init + [last];
    }
  }

  /** The `width` two's-complement big-endian bytes of a signed number. */
  function SignedBytes(n: int, width: nat): (bs: seq<byte>)
    requires 1 <= width && -128 * Pow256(width - 1) <= n < 128 * Pow256(width - 1)
    ensures |bs| == width && Signed(BigEndian(bs), width) == n
  {
    UnsignedBytes(if n < 0 then n + Pow256(width) else n, width)
  }

  /** Reading a signed number and writing it back gives the bytes read. */
  lemma SignedOfBytes(bs: seq<byte>)
    requires 1 <= |bs|
    ensures SignedBytes(Signed(BigEndian(bs), |bs|), |bs|) == bs
  {
    BigEndianBytes(bs);
  }

  /** A string: its 2-byte length, then its bytes. */
  function EncodeString(bs: seq<byte>): (r: seq<byte>)
    requires |bs| < 0x1_0000
    ensures |r| == 2 + |bs| && r[2..] == bs
  {
    Pow256Values();
    UnsignedBytes(|bs|, 2) + bs
  }

  /** The payload of a well-formed value, as the decoder reads it after the
      value's tag: a sequence starts with its header (a list's element tag,
      then the i32 length), a compound's entries end with End. */
  function Encode(v: Value): (r: seq<byte>)
    requires WellFormed(v)
    ensures |r| >= 1
    decreases v
  {
    Pow256Values();
    match v
    case Byte(n) => SignedBytes(n, 1)
    case Short(n) => SignedBytes(n, 2)
    case Int(n) => SignedBytes(n, 4)
    case Long(n) => SignedBytes(n, 8)
    case Float(bits) => UnsignedBytes(bits, 4)
    case Double(bits) => UnsignedBytes(bits, 8)
    case Str(bs) => EncodeString(bs)
    case Sequence(k, es) => SeqHeader(k, |es|) + EncodeElems(es)
    case Compound(entries) => EncodeEntries(entries)
  }

  /** The header of a sequence of `n` elements. */
  function SeqHeader(k: SeqKind, n: nat): (r: seq<byte>)
    requires n < -I32_MIN
    ensures |r| == if k.ListOf? then 5 else 4
  {
    Pow256Values();
    (if k.ListOf? then [k.elemTag] else []) + SignedBytes(n, 4)
  }

  lemma SequenceBytes(k: SeqKind, es: seq<Value>)
    requires WellFormed(Sequence(k, es))
    ensures Encode(Sequence(k, es)) == SeqHeader(k, |es|) + EncodeElems(es)
  {
  }

  /** The elements of a sequence, one payload after the other. */
  function EncodeElems(es: seq<Value>): seq<byte>
    requires forall i | 0 <= i < |es| :: WellFormed(es[i])
    decreases es
  {
    if es == [] then [] else Encode(es[0]) + EncodeElems(es[1..])
  }

  /** A tag byte followed by a name: the header of a compound entry, and of
      the root. */
  function EntryHeader(tag: byte, name: seq<byte>): (r: seq<byte>)
    requires |name| < 0x1_0000
    ensures |r| == 3 + |name| && r[0] == tag
  {
    [tag] + EncodeString(name)
  }

  /** One entry of a compound: its value's tag, its key, its value's payload. */
  function EncodeEntry(e: Entry): seq<byte>
    requires |e.key| < 0x1_0000 && WellFormed(e.value)
    decreases e
  {
    EntryHeader(ValueTag(e.value), e.key) + Encode(e.value)
  }

  /** The entries of a compound, then End. */
  function EncodeEntries(es: seq<Entry>): (r: seq<byte>)
    requires forall i | 0 <= i < |es| :: |es[i].key| < 0x1_0000 && WellFormed(es[i].value)
    ensures |r| >= 1 && r[|r| - 1] == TAG_END
    decreases es
  {
    if es == [] then [TAG_END] else EncodeEntry(es[0]) + EncodeEntries(es[1..])
  }

  /** A whole document: the root header (tag 0x0a and a name), then the root
      compound's payload. */
  function EncodeRoot(name: seq<byte>, entries: seq<Entry>): seq<byte>
    requires |name| < 0x1_0000 && WellFormed(Compound(entries))
  {
    EntryHeader(TAG_COMPOUND, name) + Encode(Compound(entries))
  }

  lemma RootBytes(name: seq<byte>, entries: seq<Entry>)
    requires |name| < 0x1_0000 && WellFormed(Compound(entries))
    ensures EncodeRoot(name, entries) == EntryHeader(TAG_COMPOUND, name) + EncodeEntries(entries)
  {
  }
}
