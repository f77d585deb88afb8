/** The decoder of src/de.rs as the objects it is made of: `Decoder` owns the
    input and the reader's position, `MapDecoder` remembers the tag of the
    entry whose key it read last, `SeqDecoder` counts the elements it has
    yielded, and `InnerDecoder` decodes one value announced by a tag. The
    serde visitor is replaced by the `Collect` loops, which build the value
    tree the visitor would see. Every method is proved to compute the
    corresponding function of module Spec. */
module De {
  import opened Wire
  import opened Raw
  import Spec

  /** A decode that had already produced `xs` and then goes on as `r`. */
  function Prepend<T>(xs: seq<T>, r: Read<seq<T>>): Read<seq<T>> {
    match r
    case Fail(e) => Fail(e)
    case Got(ys, q) => Got(xs + ys, q)
  }

  lemma PrependNothing<T>(r: Read<seq<T>>)
    ensures Prepend([], r) == r
  {
    if r.Got? {
      assert [] + r.value == r.value;
    }
  }

  lemma PrependTwice<T>(xs: seq<T>, ys: seq<T>, r: Read<seq<T>>)
    ensures Prepend(xs, Prepend(ys, r)) == Prepend(xs + ys, r)
  {
    if r.Got? {
      assert xs + (ys + r.value) == (xs + ys) + r.value;
    }
  }

  /** One entry read at `p`: its key, then its value decoded with the entry's
      tag, then the entries after it. */
  lemma EntryRead(s: seq<byte>, p: nat, t: byte, key: seq<byte>, m: nat, v: Value, q: nat)
    requires p <= |s| && Spec.KeyFrom(s, p) == Got(Some((t, key)), m)
    requires Spec.DecodeAny(s, m, t) == Got(v, q)
    ensures q <= |s| && Spec.EntriesFrom(s, p) == Prepend([Entry(key, v)], Spec.EntriesFrom(s, q))
  {
  }

  /** `Decoder` over a `SliceRead`: the input bytes and the reader's position
      in them. The reader methods are the primitive reads of `crate::raw`. */
  class Decoder {
    const data: array<byte>
    var pos: nat

    predicate Valid()
      reads this
    {
      pos <= data.Length
    }

    /** `Decoder::new`: a decoder at the start of `src`. */
    constructor(src: array<byte>)
      ensures data == src && pos == 0 && Valid()
    {
      data := src;
      pos := 0;
    }

    /** The next `n` bytes. */
    method ReadExact(n: nat) returns (r: Result<seq<byte>>)
      requires Valid()
      modifies this
      ensures Valid() && Agrees(r, Raw.ReadExact(data[..], old(pos), n), pos)
    {
      if data.Length - pos < n {
        return Err(UnexpectedEof);
      }
      r := Ok(data[pos..pos + n]);
      pos := pos + n;
    }

    /** `read_bare_byte`, `read_bare_short`, `read_bare_int` and
        `read_bare_long`: a big-endian two's-complement number of `width`
        bytes. */
    method ReadBareSigned(width: nat) returns (r: Result<int>)
      requires Valid() && 1 <= width
      modifies this
      ensures Valid() && Agrees(r, Raw.ReadSigned(data[..], old(pos), width), pos)
    {
      var bs :- ReadExact(width);
      r := Ok(Signed(BigEndian(bs), width));
    }

    /** `read_bare_float` and `read_bare_double`, as raw bit patterns: a
        big-endian unsigned number of `width` bytes. */
    method ReadBareUnsigned(width: nat) returns (r: Result<nat>)
      requires Valid()
      modifies this
      ensures Valid() && Agrees(r, Raw.ReadUnsigned(data[..], old(pos), width), pos)
    {
      var bs :- ReadExact(width);
      r := Ok(BigEndian(bs));
    }

    /** `read_bare_string`: a 2-byte length, then that many bytes. */
    method ReadBareString() returns (r: Result<seq<byte>>)
      requires Valid()
      modifies this
      ensures Valid() && Agrees(r, Raw.ReadBareString(data[..], old(pos)), pos)
    {
      Pow256Values();
      var n :- ReadBareUnsigned(2);
      r := ReadExact(n);
    }

    /** `emit_next_header`: a tag byte and, unless it is End, a name. */
    method EmitNextHeader() returns (r: Result<(byte, seq<byte>)>)
      requires Valid()
      modifies this
      ensures Valid() && Agrees(r, ReadHeader(data[..], old(pos)), pos)
    {
      var t :- ReadExact(1);
      if t[0] == TAG_END {
        return Ok((TAG_END, []));
      }
      var name :- ReadBareString();
      r := Ok((t[0], name));
    }

    /** `get_inner`: the bytes not read yet. */
    function Rest(): seq<byte>
      requires Valid()
      reads this, data
    {
      data[pos..]
    }

    /** The root `deserialize_any`: a document is never a bare value. */
    method DeserializeAny() returns (r: Result<Value>)
      ensures r == Err(NoRootCompound)
    {
      r := Err(NoRootCompound);
    }

    /** `deserialize_map` (and `deserialize_struct`, which forwards to it): the
        header is read and its name ignored; only a compound tag goes on, to
        a map decoder over this decoder. */
    method DeserializeMap() returns (r: Result<Value>)
      requires Valid()
      modifies this
      ensures Valid()
      ensures Agrees(r, Spec.DecodeRoot(data[..], old(pos), Spec.MapRequest), pos)
    {
      var header :- EmitNextHeader();
      if header.0 != TAG_COMPOUND {
        return Err(NoRootCompound);
      }
      var entries := new MapDecoder(this);
      var es :- entries.Collect();
      r := Ok(Compound(es));
    }
  }

  /** `from_slice`: decode the root of `src` as the caller's request asks,
      and hand back the bytes after it. */
  method FromSlice(src: array<byte>, req: Spec.RootRequest)
    returns (r: Result<(seq<byte>, Value)>)
    ensures r == Spec.FromSlice(src[..], req)
  {
    var decoder := new Decoder(src);
    var root: Result<Value>;
    if req == Spec.MapRequest {
      root := decoder.DeserializeMap();
    } else {
      root := decoder.DeserializeAny();
    }
    if root.Err? {
      return Err(root.error);
    }
    r := Ok((decoder.Rest(), root.value));
  }

  /** `MapDecoder`: the entries of a compound, read over the outer decoder.
      `tag` is the tag of the entry whose key was read last. */
  class MapDecoder {
    const outer: Decoder
    var tag: Option<byte>

    /** `MapDecoder::new`: no key read yet. */
    constructor(outer: Decoder)
      ensures this.outer == outer && tag == None
    {
      this.outer := outer;
      tag := None;
    }

    /** `next_key_seed`: an entry tag; End means no more entries, any other
        tag is remembered and the key follows, decoded as a string whatever
        the entry tag. */
    method NextKey() returns (r: Result<Option<seq<byte>>>)
      requires outer.Valid()
      modifies this, outer
      ensures outer.Valid()
      ensures var k := Spec.KeyFrom(outer.data[..], old(outer.pos));
              && (k.Fail? ==> r == Err(k.error))
              && (k.Got? && k.value.None? ==>
                    r == Ok(None) && outer.pos == k.next && tag == old(tag))
              && (k.Got? && k.value.Some? ==>
                    r == Ok(Some(k.value.value.1)) && outer.pos == k.next
                    && tag == Some(k.value.value.0))
    {
      ghost var s, p := outer.data[..], outer.pos;
      var b :- outer.ReadBareSigned(1);
      Spec.ByteAsI8(s, p);
      if b == 0 {
        return Ok(None);
      }
      tag := Some(Spec.AsU8(b));
      var de := new InnerDecoder(outer, TAG_STRING);
      var key :- de.DeserializeString();
      r := Ok(Some(key));
    }

    /** `next_value_seed`: the value of the entry whose key was read last,
        decoded with that entry's tag. Asking before any key is a panic in
        the source, hence the precondition. */
    method NextValue() returns (r: Result<Value>)
      requires outer.Valid() && tag.Some?
      modifies outer
      ensures outer.Valid()
      ensures Agrees(r, Spec.DecodeAny(outer.data[..], old(outer.pos), tag.value), outer.pos)
      decreases outer.data.Length - outer.pos, 3
    {
      var de := new InnerDecoder(outer, tag.value);
      r := de.DeserializeAny();
    }

    /** serde's `next_entry`: a key, then its value; `None` once the key
        reports the end. Stated against the entries that remain. */
    method NextEntry() returns (r: Result<Option<Entry>>)
      requires outer.Valid()
      modifies this, outer
      ensures outer.Valid()
      ensures r.Err? ==> Spec.EntriesFrom(outer.data[..], old(outer.pos)) == Fail(r.error)
      ensures r == Ok(None) ==>
                Spec.EntriesFrom(outer.data[..], old(outer.pos)) == Got([], outer.pos)
      ensures r.Ok? && r.value.Some? ==>
                old(outer.pos) < outer.pos
                && Spec.EntriesFrom(outer.data[..], old(outer.pos))
                   == Prepend([r.value.value], Spec.EntriesFrom(outer.data[..], outer.pos))
      decreases outer.data.Length - outer.pos, 0
    {
      ghost var s, p := outer.data[..], outer.pos;
      var key :- NextKey();
      if key.None? {
        return Ok(None);
      }
      ghost var m := outer.pos;
      var value :- NextValue();
      EntryRead(s, p, tag.value, key.value, m, value, outer.pos);
      r := Ok(Some(Entry(key.value, value)));
    }

    /** The visitor's loop: entries until `NextEntry` reports the end. */
    method Collect() returns (r: Result<seq<Entry>>)
      requires outer.Valid()
      modifies this, outer
      ensures outer.Valid()
      ensures Agrees(r, Spec.EntriesFrom(outer.data[..], old(outer.pos)), outer.pos)
      decreases outer.data.Length - outer.pos, 1
    {
      ghost var s, start := outer.data[..], outer.pos;
      var entries := [];
      PrependNothing(Spec.EntriesFrom(s, start));
      while true
        invariant outer.Valid() && start <= outer.pos
        invariant Spec.EntriesFrom(s, start) == Prepend(entries, Spec.EntriesFrom(s, outer.pos))
        decreases outer.data.Length - outer.pos
      {
        var next := NextEntry();
        if next.Err? {
          return Err(next.error);
        }
        if next.value.None? {
          assert entries + [] == entries;
          return Ok(entries);
        }
        var e := next.value.value;
        PrependTwice(entries, [e], Spec.EntriesFrom(s, outer.pos));
        entries := entries + [e];
      }
    }
  }

  /** `SeqDecoder`: the elements of a list or an array, all decoded with the
      same `tag`; `current` counts the elements yielded so far. */
  class SeqDecoder {
    const outer: Decoder
    const tag: byte
    const length: i32
    var current: int

    constructor(outer: Decoder, tag: byte, length: i32)
      ensures this.outer == outer && this.tag == tag && this.length == length
      ensures current == 0
    {
      this.outer := outer;
      this.tag := tag;
      this.length := length;
      current := 0;
    }

    /** `SeqDecoder::list`: an element tag byte, then an i32 length. */
    static method List(outer: Decoder) returns (r: Result<SeqDecoder>)
      requires outer.Valid()
      modifies outer
      ensures outer.Valid()
      ensures var h := Spec.OpenList(outer.data[..], old(outer.pos));
              && (h.Fail? ==> r == Err(h.error))
              && (h.Got? ==> r.Ok? && fresh(r.value) && r.value.outer == outer
                             && r.value.tag == h.value.tag && r.value.length == h.value.length
                             && r.value.current == 0 && outer.pos == h.next)
    {
      ghost var s, p := outer.data[..], outer.pos;
      var b :- outer.ReadBareSigned(1);
      Spec.ByteAsI8(s, p);
      var length :- outer.ReadBareSigned(4);
      var d := new SeqDecoder(outer, Spec.AsU8(b), length);
      r := Ok(d);
    }

    /** `SeqDecoder::byte_array`, `int_array` and `long_array`: an i32
        length only; the element tag is fixed by the caller (0x01, 0x03 or
        0x04). */
    static method Array(outer: Decoder, elemTag: byte) returns (r: Result<SeqDecoder>)
      requires outer.Valid()
      modifies outer
      ensures outer.Valid()
      ensures var h := Spec.OpenArray(outer.data[..], old(outer.pos), elemTag);
              && (h.Fail? ==> r == Err(h.error))
              && (h.Got? ==> r.Ok? && fresh(r.value) && r.value.outer == outer
                             && r.value.tag == elemTag && r.value.length == h.value.length
                             && r.value.current == 0 && outer.pos == h.next)
    {
      var length :- outer.ReadBareSigned(4);
      var d := new SeqDecoder(outer, elemTag, length);
      r := Ok(d);
    }

    /** `next_element_seed`: nothing once `current == length`; otherwise one
        value decoded with `tag`, after which `current` goes up by one. */
    method NextElement() returns (r: Result<Option<Value>>)
      requires outer.Valid()
      modifies this, outer
      ensures outer.Valid()
      ensures old(current) == length ==>
                r == Ok(None) && outer.pos == old(outer.pos) && current == old(current)
      ensures old(current) != length ==>
                var d := Spec.DecodeAny(outer.data[..], old(outer.pos), tag);
                && (d.Fail? ==> r == Err(d.error) && current == old(current))
                && (d.Got? ==> r == Ok(Some(d.value)) && outer.pos == d.next
                               && current == old(current) + 1)
      decreases outer.data.Length - outer.pos, 3
    {
      if current == length {
        return Ok(None);
      }
      var de := new InnerDecoder(outer, tag);
      var value :- de.DeserializeAny();
      current := current + 1;
      r := Ok(Some(value));
    }

    /** `size_hint`: the i32 length converted to a 64-bit `usize`, so that a
        negative length becomes a huge one. */
    function SizeHint(): (n: nat)
      reads this
      ensures n < 0x1_0000_0000_0000_0000
      ensures length >= 0 ==> n == length
      ensures length < 0 ==> n == length + 0x1_0000_0000_0000_0000
    {
      if length >= 0 then length else length + 0x1_0000_0000_0000_0000
    }

    /** For a successful run of a fresh decoder, `size_hint` is exactly the
        number of elements yielded (so the length was not negative). */
    lemma SizeHintCounts(s: seq<byte>, p: nat)
      requires p <= |s| && Spec.ElementsFrom(s, p, tag, length, 0).Got?
      ensures SizeHint() == |Spec.ElementsFrom(s, p, tag, length, 0).value|
    {
    }

    /** The visitor's loop: elements until `NextElement` reports the end. */
    method Collect() returns (r: Result<seq<Value>>)
      requires outer.Valid()
      modifies this, outer
      ensures outer.Valid()
      ensures Agrees(r, Spec.ElementsFrom(outer.data[..], old(outer.pos), tag, length, old(current)),
                     outer.pos)
      decreases outer.data.Length - outer.pos, 4
    {
      ghost var s, start, first := outer.data[..], outer.pos, current;
      var elems := [];
      PrependNothing(Spec.ElementsFrom(s, start, tag, length, first));
      while true
        invariant outer.Valid() && start <= outer.pos
        invariant Spec.ElementsFrom(s, start, tag, length, first)
                  == Prepend(elems, Spec.ElementsFrom(s, outer.pos, tag, length, current))
        decreases outer.data.Length - outer.pos
      {
        ghost var p, c := outer.pos, current;
        var next := NextElement();
        if next.Err? {
          return Err(next.error);
        }
        if next.value.None? {
          assert elems + [] == elems;
          return Ok(elems);
        }
        var v := next.value.value;
        assert Spec.ElementsFrom(s, p, tag, length, c)
               == Prepend([v], Spec.ElementsFrom(s, outer.pos, tag, length, current));
        PrependTwice(elems, [v], Spec.ElementsFrom(s, outer.pos, tag, length, current));
        elems := elems + [v];
      }
    }
  }

  /** `InnerDecoder`: one value, announced by `tag`, read over the outer
      decoder. */
  class InnerDecoder {
    const outer: Decoder
    const tag: byte

    constructor(outer: Decoder, tag: byte)
      ensures this.outer == outer && this.tag == tag
    {
      this.outer := outer;
      this.tag := tag;
    }

    /** `deserialize_any`: the tag table. */
    method DeserializeAny() returns (r: Result<Value>)
      requires outer.Valid()
      modifies outer
      ensures outer.Valid()
      ensures Agrees(r, Spec.DecodeAny(outer.data[..], old(outer.pos), tag), outer.pos)
      ensures !IsValueTag(tag) ==> outer.pos == old(outer.pos)
      decreases outer.data.Length - outer.pos, 2
    {
      Pow256Values();
      if tag == TAG_BYTE {
        var n :- outer.ReadBareSigned(1);
        r := Ok(Byte(n));
      } else if tag == TAG_SHORT {
        var n :- outer.ReadBareSigned(2);
        r := Ok(Short(n));
      } else if tag == TAG_INT {
        var n :- outer.ReadBareSigned(4);
        r := Ok(Int(n));
      } else if tag == TAG_LONG {
        var n :- outer.ReadBareSigned(8);
        r := Ok(Long(n));
      } else if tag == TAG_FLOAT {
        var bits :- outer.ReadBareUnsigned(4);
        r := Ok(Float(bits));
      } else if tag == TAG_DOUBLE {
        var bits :- outer.ReadBareUnsigned(8);
        r := Ok(Double(bits));
      } else if tag == TAG_STRING {
        var bs :- outer.ReadBareString();
        r := Ok(Str(bs));
      } else if tag in {TAG_BYTE_ARRAY, TAG_LIST, TAG_INT_ARRAY, TAG_LONG_ARRAY} {
        r := DeserializeSequence();
      } else if tag == TAG_COMPOUND {
        var entries := new MapDecoder(outer);
        var es :- entries.Collect();
        r := Ok(Compound(es));
      } else {
        r := Err(InvalidTypeId(tag));
      }
    }

    /** The sequence rows of the tag table: open the sequence decoder the
        tag names, then visit its elements. */
    method DeserializeSequence() returns (r: Result<Value>)
      requires outer.Valid() && tag in {TAG_BYTE_ARRAY, TAG_LIST, TAG_INT_ARRAY, TAG_LONG_ARRAY}
      modifies outer
      ensures outer.Valid()
      ensures Agrees(r, Spec.DecodeSequence(outer.data[..], old(outer.pos), tag), outer.pos)
      decreases outer.data.Length - outer.pos, 1
    {
      if tag == TAG_BYTE_ARRAY {
        var items :- SeqDecoder.Array(outer, TAG_BYTE);
        var elems :- items.Collect();
        r := Ok(Sequence(ByteArray, elems));
      } else if tag == TAG_LIST {
        var list :- SeqDecoder.List(outer);
        var elems :- list.Collect();
        r := Ok(Sequence(ListOf(list.tag), elems));
      } else if tag == TAG_INT_ARRAY {
        var items :- SeqDecoder.Array(outer, TAG_INT);
        var elems :- items.Collect();
        r := Ok(Sequence(IntArray, elems));
      } else {
        var items :- SeqDecoder.Array(outer, TAG_LONG);
        var elems :- items.Collect();
        r := Ok(Sequence(LongArray, elems));
      }
    }

    /** `deserialize_bool`: only tag 0x01, and only the bytes 0 and 1. */
    method DeserializeBool() returns (r: Result<bool>)
      requires outer.Valid()
      modifies outer
      ensures outer.Valid()
      ensures Agrees(r, Spec.DecodeBool(outer.data[..], old(outer.pos), tag), outer.pos)
      ensures tag != TAG_BYTE ==> outer.pos == old(outer.pos)
    {
      if tag != TAG_BYTE {
        return Err(TagMismatch(tag, TAG_BYTE));
      }
      var b :- outer.ReadBareSigned(1);
      if b == 0 {
        r := Ok(false);
      } else if b == 1 {
        r := Ok(true);
      } else {
        r := Err(NonBooleanByte(b));
      }
    }

    /** `deserialize_option`: always present. */
    method DeserializeOption() returns (r: Result<Option<Value>>)
      requires outer.Valid()
      modifies outer
      ensures outer.Valid()
      ensures Agrees(r, Spec.DecodeOption(outer.data[..], old(outer.pos), tag), outer.pos)
      decreases outer.data.Length - outer.pos, 3
    {
      var v :- DeserializeAny();
      r := Ok(Some(v));
    }

    /** `deserialize_string`: only tag 0x08; the owned copy of the string. */
    method DeserializeString() returns (r: Result<seq<byte>>)
      requires outer.Valid()
      modifies outer
      ensures outer.Valid()
      ensures Agrees(r, Spec.DecodeOwnedString(outer.data[..], old(outer.pos), tag), outer.pos)
      ensures tag != TAG_STRING ==> outer.pos == old(outer.pos)
    {
      if tag != TAG_STRING {
        return Err(TagMismatch(tag, TAG_STRING));
      }
      r := outer.ReadBareString();
    }
  }
}
