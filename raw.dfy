/** The primitive byte reader the decoder drives (`crate::raw`), as pure
    functions of an input and a position: big-endian integers, raw float bit
    patterns, 2-byte-length-prefixed strings and the optional root header.
    Every read fails with `UnexpectedEof` when the input ends too early. */
module Raw {
  import opened Wire

  function Pow256(n: nat): (r: nat)
    ensures r >= 1
  {
    if n == 0 then 1 else 256 * Pow256(n - 1)
  }

  lemma Pow256Values()
    ensures Pow256(1) == 0x100 && Pow256(2) == 0x1_0000 && Pow256(3) == 0x100_0000
    ensures Pow256(4) == 0x1_0000_0000 && Pow256(8) == 0x1_0000_0000_0000_0000
  {
  }

  /** The unsigned number whose big-endian bytes are `bs`. */
  function BigEndian(bs: seq<byte>): (u: nat)
    ensures u < Pow256(|bs|)
  {
    if bs == [] then 0 else BigEndian(bs[..|bs| - 1]) * 256 + bs[|bs| - 1]
  }

  /** Two's-complement reading of a `width`-byte unsigned number `u`. */
  function Signed(u: nat, width: nat): (n: int)
    requires 1 <= width && u < Pow256(width)
    ensures -128 * Pow256(width - 1) <= n < 128 * Pow256(width - 1)
    ensures u == if n < 0 then n + Pow256(width) else n
  {
    if u < 128 * Pow256(width - 1) then u else u - Pow256(width)
  }

  /** The next `n` bytes, as they are. */
  function ReadExact(s: seq<byte>, pos: nat, n: nat): (r: Read<seq<byte>>)
    ensures r.Got? <==> pos + n <= |s|
    ensures r.Got? ==> r.value == s[pos..pos + n] && r.next == pos + n
    ensures r.Fail? ==> r.error == UnexpectedEof
  {
    if pos + n <= |s| then Got(s[pos..pos + n], pos + n) else Fail(UnexpectedEof)
  }

  /** An unsigned big-endian number of `width` bytes (a float's bit pattern,
      a string's length). */
  function ReadUnsigned(s: seq<byte>, pos: nat, width: nat): (r: Read<nat>)
    ensures r.Got? <==> pos + width <= |s|
    ensures r.Got? ==> r.value == BigEndian(s[pos..pos + width]) && r.next == pos + width
    ensures r.Got? ==> r.value < Pow256(width)
    ensures r.Fail? ==> r.error == UnexpectedEof
  {
    match ReadExact(s, pos, width)
    case Fail(e) => Fail(e)
    case Got(bs, q) => Got(BigEndian(bs), q)
  }

  /** A signed big-endian number of `width` bytes: `read_bare_byte` (i8),
      `read_bare_short` (i16), `read_bare_int` (i32), `read_bare_long` (i64). */
  function ReadSigned(s: seq<byte>, pos: nat, width: nat): (r: Read<int>)
    requires 1 <= width
    ensures r.Got? <==> pos + width <= |s|
    ensures r.Got? ==> r.value == Signed(BigEndian(s[pos..pos + width]), width)
    ensures r.Got? ==> r.next == pos + width
    ensures r.Fail? ==> r.error == UnexpectedEof
  {
    match ReadUnsigned(s, pos, width)
    case Fail(e) => Fail(e)
    case Got(u, q) => Got(Signed(u, width), q)
  }

  /** `read_bare_string`: an unsigned 2-byte length, then that many bytes. */
  function ReadBareString(s: seq<byte>, pos: nat): (r: Read<seq<byte>>)
    ensures r.Got? <==> pos + 2 <= |s| && pos + 2 + BigEndian(s[pos..pos + 2]) <= |s|
    ensures r.Got? ==> pos + 2 <= |s| && |r.value| == BigEndian(s[pos..pos + 2])
    ensures r.Got? ==> r.next == pos + 2 + |r.value| <= |s|
    ensures r.Got? ==> r.value == s[pos + 2..r.next] && |r.value| < 0x1_0000
    ensures r.Fail? ==> r.error == UnexpectedEof
  {
    Pow256Values();
    match ReadUnsigned(s, pos, 2)
    case Fail(e) => Fail(e)
    case Got(n, q) => ReadExact(s, q, n)
  }

  /** `emit_next_header`: a tag byte and, unless the tag is End, the root's
      name. */
  function ReadHeader(s: seq<byte>, pos: nat): (r: Read<(byte, seq<byte>)>)
    ensures r.Got? <==> pos < |s| && (s[pos] == TAG_END || ReadBareString(s, pos + 1).Got?)
    ensures r.Got? ==> pos < |s| && r.value.0 == s[pos]
    ensures r.Got? && s[pos] == TAG_END ==> r.next == pos + 1 && r.value.1 == []
    ensures r.Got? && s[pos] != TAG_END ==> ReadBareString(s, pos + 1) == Got(r.value.1, r.next)
    ensures r.Fail? ==> r.error == UnexpectedEof
  {
    match ReadExact(s, pos, 1)
    case Fail(e) => Fail(e)
    case Got(t, q) =>
      if t[0] == TAG_END then Got((t[0], []), q)
      else
        match ReadBareString(s, q)
        case Fail(e) => Fail(e)
        case Got(name, q') => Got((t[0], name), q')
  }
}
