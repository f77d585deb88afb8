/** The decoder of src/de.rs as pure functions of the input bytes and a
    position. The serde visitor is replaced by a concrete `Value` tree: each
    function here says which value (and which next position) one decoder
    operation produces, or which error aborts the decode. The imperative
    decoder in module De is proved to compute exactly these functions. */
module Spec {
  import opened Wire
  import opened Raw

  /** `b as u8` for an i8 `b`: the byte whose two's-complement reading is `b`. */
  function AsU8(b: int): (t: byte)
    requires I8_MIN <= b < -I8_MIN
    ensures Signed(t, 1) == b
  {
    Pow256Values();
    if b < 0 then b + 256 else b
  }

  /** Reading one byte as an i8 and casting it back gives the byte itself. */
  lemma ByteAsI8(s: seq<byte>, pos: nat)
    requires pos < |s|
    ensures BigEndian(s[pos..pos + 1]) == s[pos]
    ensures ReadSigned(s, pos, 1).Got? && AsU8(ReadSigned(s, pos, 1).value) == s[pos]
    ensures ReadSigned(s, pos, 1).value == 0 <==> s[pos] == 0
  {
    Pow256Values();
    var bs := s[pos..pos + 1];
    assert bs[..0] == [];
  }

  /** The state a sequence decoder starts in: its element tag and its i32
      length (`current` starts at 0). */
  datatype SeqHead = SeqHead(tag: byte, length: int)

  /** `SeqDecoder::list`: an element tag byte, then an i32 length. */
  function OpenList(s: seq<byte>, pos: nat): (r: Read<SeqHead>)
    ensures r.Got? <==> pos + 5 <= |s|
    ensures r.Got? ==> r.next == pos + 5 && r.value.tag == s[pos]
    ensures r.Got? ==> r.value.length == Signed(BigEndian(s[pos + 1..pos + 5]), 4)
    ensures r.Fail? ==> r.error == UnexpectedEof
  {
    match ReadSigned(s, pos, 1)
    case Fail(e) => Fail(e)
    case Got(b, q) =>
      ByteAsI8(s, pos);
      match ReadSigned(s, q, 4)
      case Fail(e) => Fail(e)
      case Got(n, q') => Got(SeqHead(AsU8(b), n), q')
  }

  /** `SeqDecoder::byte_array`, `int_array` and `long_array`: only an i32
      length; the element tag is the caller's fixed one (0x01, 0x03, 0x04). */
  function OpenArray(s: seq<byte>, pos: nat, elemTag: byte): (r: Read<SeqHead>)
    ensures r.Got? <==> pos + 4 <= |s|
    ensures r.Got? ==> r.next == pos + 4 && r.value.tag == elemTag
    ensures r.Got? ==> r.value.length == Signed(BigEndian(s[pos..pos + 4]), 4)
    ensures r.Fail? ==> r.error == UnexpectedEof
  {
    match ReadSigned(s, pos, 4)
    case Fail(e) => Fail(e)
    case Got(n, q) => Got(SeqHead(elemTag, n), q)
  }

  function WrapSeq(kind: SeqKind, r: Read<seq<Value>>): Read<Value> {
    match r
    case Fail(e) => Fail(e)
    case Got(vs, q) => Got(Sequence(kind, vs), q)
  }

  /** The reads behind the scalar rows of the tag table: 0x01-0x04 are
      signed integers of 1, 2, 4 and 8 bytes, 0x05 and 0x06 raw 4- and 8-byte
      float patterns, 0x08 a length-prefixed string. */
  function DecodeScalar(s: seq<byte>, pos: nat, tag: byte): (r: Read<Value>)
    requires TAG_BYTE <= tag <= TAG_DOUBLE || tag == TAG_STRING
    ensures r.Got? ==> pos < r.next <= |s|
    ensures r.Got? ==> ValueTag(r.value) == tag && WellFormed(r.value)
    ensures r.Fail? ==> r.error == UnexpectedEof
  {
    Pow256Values();
    if tag == TAG_BYTE then
      match ReadSigned(s, pos, 1)
      case Fail(e) => Fail(e)
      case Got(n, q) => Got(Byte(n), q)
    else if tag == TAG_SHORT then
      match ReadSigned(s, pos, 2)
      case Fail(e) => Fail(e)
      case Got(n, q) => Got(Short(n), q)
    else if tag == TAG_INT then
      match ReadSigned(s, pos, 4)
      case Fail(e) => Fail(e)
      case Got(n, q) => Got(Int(n), q)
    else if tag == TAG_LONG then
      match ReadSigned(s, pos, 8)
      case Fail(e) => Fail(e)
      case Got(n, q) => Got(Long(n), q)
    else if tag == TAG_FLOAT then
      match ReadUnsigned(s, pos, 4)
      case Fail(e) => Fail(e)
      case Got(u, q) => Got(Float(u), q)
    else if tag == TAG_DOUBLE then
      match ReadUnsigned(s, pos, 8)
      case Fail(e) => Fail(e)
      case Got(u, q) => Got(Double(u), q)
    else
      match ReadBareString(s, pos)
      case Fail(e) => Fail(e)
      case Got(bs, q) => Got(Str(bs), q)
  }

  /** The sequence rows of the tag table: 0x07, 0x0b and 0x0c open a byte,
      int or long array, 0x09 a list; the elements follow the header. */
  function DecodeSequence(s: seq<byte>, pos: nat, tag: byte): (r: Read<Value>)
    requires pos <= |s|
    requires tag in {TAG_BYTE_ARRAY, TAG_LIST, TAG_INT_ARRAY, TAG_LONG_ARRAY}
    ensures r.Got? ==> pos < r.next <= |s|
    ensures r.Got? ==> ValueTag(r.value) == tag && WellFormed(r.value)
    ensures r.Fail? ==> ValueError(r.error)
    decreases |s| - pos, 0
  {
    var head :=
      if tag == TAG_LIST then OpenList(s, pos)
      else OpenArray(s, pos, if tag == TAG_BYTE_ARRAY then TAG_BYTE
                             else if tag == TAG_INT_ARRAY then TAG_INT else TAG_LONG);
    match head
    case Fail(e) => Fail(e)
    case Got(h, q) =>
      var kind :=
        if tag == TAG_LIST then ListOf(h.tag)
        else if tag == TAG_BYTE_ARRAY then ByteArray
        else if tag == TAG_INT_ARRAY then IntArray
        else LongArray;
      Pow256Values();
      WrapSeq(kind, ElementsFrom(s, q, h.tag, h.length, 0))
  }

  /** `InnerDecoder::deserialize_any`: decode one value announced by `tag`,
      by the tag table; End and unknown tags fail before anything is read.
      Every value consumes at least one byte, and its shape is the one the
      tag table gives for `tag`. */
  function DecodeAny(s: seq<byte>, pos: nat, tag: byte): (r: Read<Value>)
    requires pos <= |s|
    ensures r.Got? ==> pos < r.next <= |s|
    ensures r.Got? ==> ValueTag(r.value) == tag && WellFormed(r.value)
    ensures !IsValueTag(tag) ==> r == Fail(InvalidTypeId(tag))
    ensures r.Fail? ==> ValueError(r.error)
    decreases |s| - pos, 1
  {
    if TAG_BYTE <= tag <= TAG_DOUBLE || tag == TAG_STRING then
      DecodeScalar(s, pos, tag)
    else if tag in {TAG_BYTE_ARRAY, TAG_LIST, TAG_INT_ARRAY, TAG_LONG_ARRAY} then
      DecodeSequence(s, pos, tag)
    else if tag == TAG_COMPOUND then
      match EntriesFrom(s, pos)
      case Fail(e) => Fail(e)
      case Got(es, q) => Got(Compound(es), q)
    else
      Fail(InvalidTypeId(tag))
  }

  /** The elements a sequence decoder still yields when it is at `pos` with
      counter `current`: none once `current == length`, otherwise one value
      decoded with the shared `tag`, then the rest with `current + 1`. A
      successful run yields exactly `length - current` elements, all carrying
      `tag`; a counter already past `length` (a negative length) never meets
      it, so such a run always ends in an error. */
  function ElementsFrom(s: seq<byte>, pos: nat, tag: byte, length: int, current: int)
    : (r: Read<seq<Value>>)
    requires pos <= |s|
    ensures r.Got? ==> pos <= r.next <= |s|
    ensures r.Got? ==> current <= length && |r.value| == length - current
    ensures r.Got? ==> forall i | 0 <= i < |r.value| ::
                         ValueTag(r.value[i]) == tag && WellFormed(r.value[i])
    ensures r.Fail? ==> ValueError(r.error)
    decreases |s| - pos, 2
  {
    if current == length then Got([], pos)
    else
      match DecodeAny(s, pos, tag)
      case Fail(e) => Fail(e)
      case Got(v, q) =>
        match ElementsFrom(s, q, tag, length, current + 1)
        case Fail(e) => Fail(e)
        case Got(vs, q') => Got([v] + vs, q')
  }

  /** `MapDecoder::next_key_seed`: an entry tag byte; End (0x00) means no more
      entries, any other tag is remembered and a key follows, decoded as a
      string (tag forced to 0x08) whatever the entry tag was. */
  function KeyFrom(s: seq<byte>, pos: nat): (r: Read<Option<(byte, seq<byte>)>>)
    ensures r.Got? <==> pos < |s| && (s[pos] == TAG_END || ReadBareString(s, pos + 1).Got?)
    ensures r.Got? ==> pos < r.next <= |s|
    ensures r.Got? ==> (r.value.None? <==> s[pos] == TAG_END)
    ensures r.Got? && r.value.None? ==> r.next == pos + 1
    ensures r.Got? && r.value.Some? ==> pos + 3 <= r.next
    ensures r.Got? && r.value.Some? ==>
              r.value.value.0 == s[pos] && r.value.value.1 == s[pos + 3..r.next]
    ensures r.Got? && r.value.Some? ==>
              |r.value.value.1| == BigEndian(s[pos + 1..pos + 3]) < 0x1_0000
    ensures r.Fail? ==> r.error == UnexpectedEof
  {
    Pow256Values();
    match ReadSigned(s, pos, 1)
    case Fail(e) => Fail(e)
    case Got(b, p) =>
      ByteAsI8(s, pos);
      if b == 0 then Got(None, p)
      else
        match DecodeOwnedString(s, p, TAG_STRING)
        case Fail(e) => Fail(e)
        case Got(key, p') => Got(Some((AsU8(b), key)), p')
  }

  /** The entries a compound decoder still yields from `pos`: keys and values
      in wire order, each value decoded with the tag read before its key, up
      to and including the End byte. */
  function EntriesFrom(s: seq<byte>, pos: nat): (r: Read<seq<Entry>>)
    requires pos <= |s|
    ensures r.Got? ==> pos < r.next <= |s|
    ensures r.Got? ==> forall i | 0 <= i < |r.value| ::
                         |r.value[i].key| < 0x1_0000 && WellFormed(r.value[i].value)
    ensures r.Fail? ==> ValueError(r.error)
    decreases |s| - pos, 0
  {
    match KeyFrom(s, pos)
    case Fail(e) => Fail(e)
    case Got(None, p) => Got([], p)
    case Got(Some((tag, key)), p) =>
      match DecodeAny(s, p, tag)
      case Fail(e) => Fail(e)
      case Got(v, p') =>
        match EntriesFrom(s, p')
        case Fail(e) => Fail(e)
        case Got(es, p'') => Got([Entry(key, v)] + es, p'')
  }

  /** `InnerDecoder::deserialize_bool`: only tag 0x01 is accepted, and only the
      bytes 0 and 1. */
  function DecodeBool(s: seq<byte>, pos: nat, tag: byte): (r: Read<bool>)
    ensures r.Got? <==> tag == TAG_BYTE && pos < |s| && s[pos] in {0, 1}
    ensures r.Got? ==> r.next == pos + 1 && (r.value <==> s[pos] == 1)
    ensures tag != TAG_BYTE ==> r == Fail(TagMismatch(tag, TAG_BYTE))
    ensures tag == TAG_BYTE && pos < |s| && s[pos] !in {0, 1} ==>
              r == Fail(NonBooleanByte(Signed(s[pos], 1)))
    ensures tag == TAG_BYTE && pos == |s| ==> r == Fail(UnexpectedEof)
  {
    if tag == TAG_BYTE then
      match ReadSigned(s, pos, 1)
      case Fail(e) => Fail(e)
      case Got(b, q) =>
        ByteAsI8(s, pos);
        if b == 0 then Got(false, q)
        else if b == 1 then Got(true, q)
        else Fail(NonBooleanByte(b))
    else
      Fail(TagMismatch(tag, TAG_BYTE))
  }

  /** `InnerDecoder::deserialize_string`: only tag 0x08 is accepted; the owned
      string is the reader's length-prefixed payload. */
  function DecodeOwnedString(s: seq<byte>, pos: nat, tag: byte): (r: Read<seq<byte>>)
    ensures tag != TAG_STRING ==> r == Fail(TagMismatch(tag, TAG_STRING))
    ensures r.Got? ==> tag == TAG_STRING && pos + 2 <= r.next <= |s|
    ensures r.Got? ==> r.value == s[pos + 2..r.next] && |r.value| == BigEndian(s[pos..pos + 2])
    ensures tag == TAG_STRING ==>
              (r.Got? <==> pos + 2 <= |s| && pos + 2 + BigEndian(s[pos..pos + 2]) <= |s|)
    ensures tag == TAG_STRING && r.Fail? ==> r.error == UnexpectedEof
  {
    if tag == TAG_STRING then ReadBareString(s, pos) else Fail(TagMismatch(tag, TAG_STRING))
  }

  /** `InnerDecoder::deserialize_option`: the value is always present; it is
      whatever the generic decode gives. */
  function DecodeOption(s: seq<byte>, pos: nat, tag: byte): (r: Read<Option<Value>>)
    requires pos <= |s|
    ensures r.Got? <==> DecodeAny(s, pos, tag).Got?
    ensures r.Got? ==> r.value.Some? && r.value.value == DecodeAny(s, pos, tag).value
    ensures r.Got? ==> r.next == DecodeAny(s, pos, tag).next
    ensures r.Fail? ==> r.error == DecodeAny(s, pos, tag).error
  {
    match DecodeAny(s, pos, tag)
    case Fail(e) => Fail(e)
    case Got(v, q) => Got(Some(v), q)
  }

  /** What a caller of `from_slice` asks for at the root: a map or a struct
      (`deserialize_map`, `deserialize_struct`), or any other shape, which is
      forwarded to the root `deserialize_any`. */
  datatype RootRequest = MapRequest | OtherRequest

  /** The root decoder `Decoder`: a generic request fails at once; a map
      request reads the header, ignores the name and accepts only a compound
      tag, whose entries follow up to their End byte. */
  function DecodeRoot(s: seq<byte>, pos: nat, req: RootRequest): (r: Read<Value>)
    ensures req == OtherRequest ==> r == Fail(NoRootCompound)
    ensures ReadHeader(s, pos).Got? && ReadHeader(s, pos).value.0 != TAG_COMPOUND ==>
              r == Fail(NoRootCompound)
    ensures r.Got? ==> req.MapRequest? && pos < |s| && s[pos] == TAG_COMPOUND
    ensures r.Got? ==> r.value.Compound? && pos < r.next <= |s|
    ensures req == MapRequest && ReadHeader(s, pos).Fail? ==> r == Fail(ReadHeader(s, pos).error)
    ensures r == Fail(NoRootCompound) ==>
              req == OtherRequest
              || (ReadHeader(s, pos).Got? && ReadHeader(s, pos).value.0 != TAG_COMPOUND)
  {
    if req == OtherRequest then Fail(NoRootCompound)
    else
      match ReadHeader(s, pos)
      case Fail(e) => Fail(e)
      case Got((tag, _), p) =>
        if tag != TAG_COMPOUND then Fail(NoRootCompound)
        else
          match EntriesFrom(s, p)
          case Fail(e) => Fail(e)
          case Got(es, q) => Got(Compound(es), q)
  }

  /** `from_slice`: the decoded root compound and the bytes after it. Only a
      map request whose header tag is 0x0a can succeed; the remainder starts
      right after the root's End byte. */
  function FromSlice(s: seq<byte>, req: RootRequest): (r: Result<(seq<byte>, Value)>)
    ensures req == OtherRequest ==> r == Err(NoRootCompound)
    ensures ReadHeader(s, 0).Got? && ReadHeader(s, 0).value.0 != TAG_COMPOUND ==>
              r == Err(NoRootCompound)
    ensures r.Ok? ==> req.MapRequest? && 0 < |s| && s[0] == TAG_COMPOUND && r.value.1.Compound?
    ensures r.Ok? ==> |r.value.0| < |s| && r.value.0 == s[|s| - |r.value.0|..]
    ensures req == MapRequest && ReadHeader(s, 0).Fail? ==> r == Err(ReadHeader(s, 0).error)
    ensures r == Err(NoRootCompound) ==>
              req == OtherRequest
              || (ReadHeader(s, 0).Got? && ReadHeader(s, 0).value.0 != TAG_COMPOUND)
  {
    match DecodeRoot(s, 0, req)
    case Fail(e) => Err(e)
    case Got(v, q) => Ok((s[q..], v))
  }
}
