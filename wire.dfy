/** Vocabulary of the Named Binary Tag (NBT) wire format shared by the reader,
    the decoder and the reference encoder: tag bytes, decoder errors, step
    outcomes and the tree of values the decoder produces. */
module Wire {

  /** An unsigned 8-bit value: an input byte or a tag. */
  type byte = b: int | 0 <= b < 0x100

  datatype Option<+T> = None | Some(value: T)

  /** The error kinds the decoder can report. `UnexpectedEof` stands for the
      reader's I/O error on input that ends too early. */
  datatype Error =
    | NoRootCompound
    | InvalidTypeId(tag: byte)
    | TagMismatch(actual: byte, expected: byte)
    | NonBooleanByte(b: int)
    | UnexpectedEof

  /** Outcome of reading from an input at some position: the value read and
      the position just after it, or the error that aborts the decode. */
  datatype Read<+T> = Got(value: T, next: nat) | Fail(error: Error)

  /** Outcome of an operation on the imperative decoder; `:-` plays the part
      of the `?` operator. */
  datatype Result<+T> = Ok(value: T) | Err(error: Error) {
    predicate IsFailure() { Err? }

    function PropagateFailure<U>(): Result<U>
      requires Err?
    {
      Err(error)
    }

    function Extract(): T
      requires Ok?
    {
      value
    }
  }

  /** The errors that decoding a value can raise: the input ends too early,
      or a tag announces no value. The tag checks of the narrowed requests
      and of the root raise the others. */
  predicate ValueError(e: Error) {
    e == UnexpectedEof || e.InvalidTypeId?
  }

  /** A method result `r`, together with the decoder position `pos` it leaves
      behind, is what the pure specification `spec` prescribes. */
  predicate Agrees<T(==)>(r: Result<T>, spec: Read<T>, pos: nat) {
    match spec
    case Got(v, q) => r == Ok(v) && pos == q
    case Fail(e) => r == Err(e)
  }

  // Tag bytes of the format.
  const TAG_END: byte := 0x00
  const TAG_BYTE: byte := 0x01
  const TAG_SHORT: byte := 0x02
  const TAG_INT: byte := 0x03
  const TAG_LONG: byte := 0x04
  const TAG_FLOAT: byte := 0x05
  const TAG_DOUBLE: byte := 0x06
  const TAG_BYTE_ARRAY: byte := 0x07
  const TAG_STRING: byte := 0x08
  const TAG_LIST: byte := 0x09
  const TAG_COMPOUND: byte := 0x0a
  const TAG_INT_ARRAY: byte := 0x0b
  const TAG_LONG_ARRAY: byte := 0x0c

  /** The tags that announce a value (every tag but End). */
  predicate IsValueTag(t: byte) {
    TAG_BYTE <= t <= TAG_LONG_ARRAY
  }

  /** Which of the four sequence decoders produced a sequence: a list carries
      its element tag, the three arrays have a fixed one. */
  datatype SeqKind = ListOf(elemTag: byte) | ByteArray | IntArray | LongArray

  /** One entry of a compound, in the order it appeared on the wire. */
  datatype Entry = Entry(key: seq<byte>, value: Value)

  /** What the decoder reports for one value. Strings are their raw
      length-prefixed payload; floats are their raw bit patterns. */
  datatype Value =
    | Byte(b: int)
    | Short(s: int)
    | Int(i: int)
    | Long(l: int)
    | Float(bits32: nat)
    | Double(bits64: nat)
    | Str(bytes: seq<byte>)
    | Sequence(kind: SeqKind, elems: seq<Value>)
    | Compound(entries: seq<Entry>)

  function ElemTag(k: SeqKind): (t: byte)
    ensures k.ListOf? || IsValueTag(t)
  {
    match k
    case ListOf(t) => t
    case ByteArray => TAG_BYTE
    case IntArray => TAG_INT
    case LongArray => TAG_LONG
  }

  /** The tag that announces a value on the wire: the tag table read from the
      value side. */
  function ValueTag(v: Value): (t: byte)
    ensures IsValueTag(t)
  {
    match v
    case Byte(_) => TAG_BYTE
    case Short(_) => TAG_SHORT
    case Int(_) => TAG_INT
    case Long(_) => TAG_LONG
    case Float(_) => TAG_FLOAT
    case Double(_) => TAG_DOUBLE
    case Str(_) => TAG_STRING
    case Sequence(ListOf(_), _) => TAG_LIST
    case Sequence(ByteArray, _) => TAG_BYTE_ARRAY
    case Sequence(IntArray, _) => TAG_INT_ARRAY
    case Sequence(LongArray, _) => TAG_LONG_ARRAY
    case Compound(_) => TAG_COMPOUND
  }

  const I8_MIN: int := -0x80
  const I16_MIN: int := -0x8000
  const I32_MIN: int := -0x8000_0000
  const I64_MIN: int := -0x8000_0000_0000_0000

  /** A signed 32-bit integer: a sequence length on the wire. */
  type i32 = n: int | I32_MIN <= n < -I32_MIN

  /** A value the format can carry: integers fit their width, strings fit a
      2-byte length, sequences fit a 4-byte length, and every element of a
      sequence carries the sequence's element tag. */
  predicate WellFormed(v: Value)
    decreases v
  {
    match v
    case Byte(n) => I8_MIN <= n < -I8_MIN
    case Short(n) => I16_MIN <= n < -I16_MIN
    case Int(n) => I32_MIN <= n < -I32_MIN
    case Long(n) => I64_MIN <= n < -I64_MIN
    case Float(bits) => bits < 0x1_0000_0000
    case Double(bits) => bits < 0x1_0000_0000_0000_0000
    case Str(bs) => |bs| < 0x1_0000
    case Sequence(k, es) =>
      && |es| < -I32_MIN
      && (forall i | 0 <= i < |es| :: ValueTag(es[i]) == ElemTag(k))
      && (forall i | 0 <= i < |es| :: WellFormed(es[i]))
    case Compound(entries) =>
      forall i | 0 <= i < |entries| ::
        |entries[i].key| < 0x1_0000 && WellFormed(entries[i].value)
  }
}
