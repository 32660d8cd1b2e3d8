/** The Write and Read overloads of the codec as methods over a StringWriter
    and a StringReader, one method per overload. Every Write appends exactly
    Encode(shape, value) to the sink; every Read returns what Decode says of the
    bytes left in the source and leaves the cursor after the bytes it consumed
    (after a failure the position is not specified). */
module Engine {
  import opened Bytes
  import opened Shapes
  import opened Format
  import opened Laws
  import opened Streams

  // ---------------------------------------------------------------- writing

  /** The POD overload: the object image, sizeof(T) bytes, no framing. */
  method WritePod(out: StringWriter, bytes: seq<byte>)
    modifies out
    ensures out.buf == old(out.buf) + bytes
  {
    out.Write(bytes);
  }

  /** The overload shared by std::string, std::string_view and
      std::vector<POD>: the size_t count, then the element storage in one block. */
  method WriteBlock(out: StringWriter, count: nat, block: seq<byte>)
    modifies out
    ensures out.buf == old(out.buf) + CountBytes(count) + block
  {
    WritePod(out, CountBytes(count));
    out.Write(block);
  }

  /** The const char* overload: strlen(value) as the count, then the
      characters before the terminator; the bytes equal those of the
      std::string holding the same characters. */
  method WriteCString(out: StringWriter, mem: seq<byte>)
    requires 0 in mem
    modifies out
    ensures out.buf == old(out.buf) + Encode(Text, TextV(mem[..StrLen(mem)]))
  {
    var chars := mem[..StrLen(mem)];
    assert Encode(Text, TextV(chars)) == CountBytes(|chars|) + chars;
    WriteBlock(out, |chars|, chars);
  }

  /** The overload set as a whole: the shape picks the overload. */
  method Write(out: StringWriter, s: Shape, v: Value)
    requires WellTyped(s, v)
    modifies out
    ensures out.buf == old(out.buf) + Encode(s, v)
    decreases s, 1
  {
    match s
    case Pod(_) => WritePod(out, v.bytes);
    case Bool => WritePod(out, BoolBytes(v.b));
    case Text => WriteBlock(out, |v.chars|, v.chars);
    case PodVector(_) => WriteBlock(out, |v.items|, Flatten(v.items));
    case Vector(e) => WriteVector(out, e, v.elems);
    case Optional(e) => WriteOptional(out, e, v);
    case Array(n, e) => WriteArray(out, n, e, v.elems);
    case Members(fs) => WriteMembers(out, fs, v.fields);
  }

  /** std::optional: a true flag and the payload, or a false flag alone. */
  method WriteOptional(out: StringWriter, e: Shape, v: Value)
    requires WellTyped(Optional(e), v)
    modifies out
    ensures out.buf == old(out.buf) + Encode(Optional(e), v)
    decreases Optional(e), 0
  {
    if v.SomeV? {
      WritePod(out, BoolBytes(true));
      Write(out, e, v.inner);
    } else {
      WritePod(out, BoolBytes(false));
    }
  }

  /** std::vector<non-POD>: the count, then each element in order. */
  method WriteVector(out: StringWriter, e: Shape, vec: seq<Value>)
    requires WellTyped(Vector(e), ListV(vec))
    modifies out
    ensures out.buf == old(out.buf) + Encode(Vector(e), ListV(vec))
    decreases Vector(e), 0
  {
    WritePod(out, CountBytes(|vec|));
    ghost var head := out.buf;
    for i := 0 to |vec|
      invariant out.buf == head + EncodeAll(e, vec[..i])
    {
      Write(out, e, vec[i]);
      EncodeAllPrefixStep(e, vec, i);
    }
    assert vec[..|vec|] == vec;
  }

  /** std::array<non-POD, N>: the N elements in index order, no count. */
  method WriteArray(out: StringWriter, n: nat, e: Shape, arr: seq<Value>)
    requires WellTyped(Array(n, e), ListV(arr))
    modifies out
    ensures out.buf == old(out.buf) + Encode(Array(n, e), ListV(arr))
    decreases Array(n, e), 0
  {
    for i := 0 to n
      invariant out.buf == old(out.buf) + EncodeAll(e, arr[..i])
    {
      Write(out, e, arr[i]);
      EncodeAllPrefixStep(e, arr, i);
    }
    assert arr[..n] == arr;
  }

  /** WriteMembers: each member of the Trait's members tuple, in tuple order. */
  method WriteMembers(out: StringWriter, fs: seq<Shape>, vals: seq<Value>)
    requires WellTyped(Members(fs), RecordV(vals))
    modifies out
    ensures out.buf == old(out.buf) + Encode(Members(fs), RecordV(vals))
    decreases Members(fs), 0
  {
    for i := 0 to |fs|
      invariant out.buf == old(out.buf) + EncodeFields(fs[..i], vals[..i])
    {
      Write(out, fs[i], vals[i]);
      EncodeFieldsPrefixStep(fs, vals, i);
    }
    assert fs[..|fs|] == fs && vals[..|fs|] == vals;
  }

  /** The elements written so far grow by one element's encoding per step. */
  lemma EncodeAllPrefixStep(e: Shape, vs: seq<Value>, i: nat)
    requires i < |vs|
    ensures EncodeAll(e, vs[..i + 1]) == EncodeAll(e, vs[..i]) + Encode(e, vs[i])
  {
    EncodeAllAppend(e, vs[..i], vs[i]);
    assert vs[..i + 1] == vs[..i] + [vs[i]];
  }

  /** The members written so far grow by one member's encoding per step. */
  lemma EncodeFieldsPrefixStep(fs: seq<Shape>, vs: seq<Value>, i: nat)
    requires i < |fs| && |vs| == |fs|
    ensures EncodeFields(fs[..i + 1], vs[..i + 1]) == EncodeFields(fs[..i], vs[..i]) + Encode(fs[i], vs[i])
  {
    EncodeFieldsAppend(fs[..i], vs[..i], fs[i], vs[i]);
    assert fs[..i + 1] == fs[..i] + [fs[i]];
    assert vs[..i + 1] == vs[..i] + [vs[i]];
  }

  // ---------------------------------------------------------------- reading

  /** r is what the read returns and rest what it leaves unread, as the
      decoding function spec describes; on failure only r is constrained. */
  ghost predicate Reads<T>(spec: Option<(T, seq<byte>)>, r: Option<T>, rest: seq<byte>)
  {
    if spec.None? then r.None? else r == Some(spec.value.0) && rest == spec.value.1
  }

  /** Prefixes the values already read to the outcome of reading the rest. */
  ghost function Prepend(done: seq<Value>, later: Option<(seq<Value>, seq<byte>)>): Option<(seq<Value>, seq<byte>)>
  {
    if later.None? then None else Some((done + later.value.0, later.value.1))
  }

  lemma PrependNothing(later: Option<(seq<Value>, seq<byte>)>)
    ensures Prepend([], later) == later
  {
    if later.Some? {
      assert [] + later.value.0 == later.value.0;
    }
  }

  lemma PrependAll(done: seq<Value>, rest: seq<byte>)
    ensures Prepend(done, Some(([], rest))) == Some((done, rest))
  {
    assert done + [] == done;
  }

  /** One element read: on failure the whole sequence read fails, otherwise
      the element joins the ones already read. */
  lemma ReadElementStep(done: seq<Value>, e: Shape, k: nat, here: seq<byte>)
    requires k > 0
    ensures Decode(e, here).None? ==> Prepend(done, DecodeAll(e, k, here)) == None
    ensures Decode(e, here).Some? ==>
      Prepend(done, DecodeAll(e, k, here))
      == Prepend(done + [Decode(e, here).value.0], DecodeAll(e, k - 1, Decode(e, here).value.1))
  {
    var h := Decode(e, here);
    if h.Some? {
      var t := DecodeAll(e, k - 1, h.value.1);
      if t.Some? {
        assert done + ([h.value.0] + t.value.0) == (done + [h.value.0]) + t.value.0;
      }
    }
  }

  /** One member read, in the same way. */
  lemma ReadMemberStep(done: seq<Value>, fs: seq<Shape>, i: nat, here: seq<byte>)
    requires i < |fs|
    ensures Decode(fs[i], here).None? ==> Prepend(done, DecodeFields(fs[i..], here)) == None
    ensures Decode(fs[i], here).Some? ==>
      Prepend(done, DecodeFields(fs[i..], here))
      == Prepend(done + [Decode(fs[i], here).value.0], DecodeFields(fs[i + 1..], Decode(fs[i], here).value.1))
  {
    assert fs[i..][0] == fs[i] && fs[i..][1..] == fs[i + 1..];
    var h := Decode(fs[i], here);
    if h.Some? {
      var t := DecodeFields(fs[i + 1..], h.value.1);
      if t.Some? {
        assert done + ([h.value.0] + t.value.0) == (done + [h.value.0]) + t.value.0;
      }
    }
  }

  /** The POD overload: exactly sizeof(T) bytes, or Error. */
  method ReadPod(inp: StringReader, w: nat) returns (r: Option<seq<byte>>)
    requires inp.Valid()
    modifies inp
    ensures inp.Valid()
    ensures Reads(DecodePod(w, old(inp.Remaining())), r, inp.Remaining())
  {
    var ok, bytes := inp.Read(w);
    if !ok {
      return None;
    }
    return Some(bytes);
  }

  /** Read<bool>, the flag of an optional. */
  method ReadBool(inp: StringReader) returns (r: Option<bool>)
    requires inp.Valid()
    modifies inp
    ensures inp.Valid()
    ensures Reads(DecodeBool(old(inp.Remaining())), r, inp.Remaining())
  {
    var p := ReadPod(inp, 1);
    if p.None? {
      return None;
    }
    return Some(p.value[0] != 0);
  }

  /** Read<size_t>, the count prefix. */
  method ReadCount(inp: StringReader) returns (r: Option<nat>)
    requires inp.Valid()
    modifies inp
    ensures inp.Valid()
    ensures Reads(DecodeCount(old(inp.Remaining())), r, inp.Remaining())
  {
    var p := ReadPod(inp, SizeTWidth);
    if p.None? {
      return None;
    }
    return Some(FromLittleEndian(p.value));
  }

  /** The overload shared by std::string and std::vector<POD>: the count,
      then count * sizeof(element) bytes in one block. */
  method ReadBlock(inp: StringReader, w: nat) returns (r: Option<(nat, seq<byte>)>)
    requires inp.Valid()
    modifies inp
    ensures inp.Valid()
    ensures Reads(DecodeBlock(w, old(inp.Remaining())), r, inp.Remaining())
  {
    var size := ReadCount(inp);
    if size.None? {
      return None;
    }
    var ok, block := inp.Read(size.value * w);
    if !ok {
      return None;
    }
    return Some((size.value, block));
  }

  /** The overload set as a whole: the shape picks the overload. */
  method Read(inp: StringReader, s: Shape) returns (r: Option<Value>)
    requires inp.Valid()
    modifies inp
    ensures inp.Valid()
    ensures Reads(Decode(s, old(inp.Remaining())), r, inp.Remaining())
    decreases s, 1
  {
    match s
    case Pod(w) =>
      var p := ReadPod(inp, w);
      r := if p.None? then None else Some(PodV(p.value));
    case Bool =>
      var b := ReadBool(inp);
      r := if b.None? then None else Some(BoolV(b.value));
    case Text =>
      var b := ReadBlock(inp, 1);
      r := if b.None? then None else Some(TextV(b.value.1));
    case PodVector(w) =>
      var b := ReadBlock(inp, w);
      r := if b.None? then None else Some(PodVectorV(Split(b.value.1, w, b.value.0)));
    case Vector(e) =>
      r := ReadVector(inp, e);
    case Optional(e) =>
      r := ReadOptional(inp, e);
    case Array(n, e) =>
      r := ReadArray(inp, n, e);
    case Members(fs) =>
      r := ReadMembers(inp, fs);
  }

  /** std::optional: the flag; on false, nullopt with nothing more read; on
      true, the payload or Error. */
  method ReadOptional(inp: StringReader, e: Shape) returns (r: Option<Value>)
    requires inp.Valid()
    modifies inp
    ensures inp.Valid()
    ensures Reads(Decode(Optional(e), old(inp.Remaining())), r, inp.Remaining())
    decreases Optional(e), 0
  {
    var hasValue := ReadBool(inp);
    if hasValue.None? {
      return None;
    }
    if !hasValue.value {
      return Some(NoneV);
    }
    var value := Read(inp, e);
    if value.None? {
      return None;
    }
    return Some(SomeV(value.value));
  }

  /** std::vector<non-POD>: the count, then that many elements appended one
      by one; the first failing element makes the whole read fail. */
  method ReadVector(inp: StringReader, e: Shape) returns (r: Option<Value>)
    requires inp.Valid()
    modifies inp
    ensures inp.Valid()
    ensures Reads(Decode(Vector(e), old(inp.Remaining())), r, inp.Remaining())
    decreases Vector(e), 0
  {
    ghost var input := inp.Remaining();
    var size := ReadCount(inp);
    if size.None? {
      return None;
    }
    ghost var start := inp.Remaining();
    assert Decode(Vector(e), input) == (var p := DecodeAll(e, size.value, start);
      if p.None? then None else Some((ListV(p.value.0), p.value.1)));
    var vec: seq<Value> := [];
    PrependNothing(DecodeAll(e, size.value, start));
    for i := 0 to size.value
      invariant inp.Valid()
      invariant DecodeAll(e, size.value, start) == Prepend(vec, DecodeAll(e, size.value - i, inp.Remaining()))
    {
      ReadElementStep(vec, e, size.value - i, inp.Remaining());
      var v := Read(inp, e);
      if v.None? {
        return None;
      }
      vec := vec + [v.value];
    }
    PrependAll(vec, inp.Remaining());
    return Some(ListV(vec));
  }

  /** std::array<non-POD, N>: a default-built array whose slots are assigned
      in index order; the first failing element makes the whole read fail. */
  method ReadArray(inp: StringReader, n: nat, e: Shape) returns (r: Option<Value>)
    requires inp.Valid()
    modifies inp
    ensures inp.Valid()
    ensures Reads(Decode(Array(n, e), old(inp.Remaining())), r, inp.Remaining())
    decreases Array(n, e), 0
  {
    ghost var start := inp.Remaining();
    var arr := new Value[n](_ => NoneV);
    assert arr[..0] == [];
    PrependNothing(DecodeAll(e, n, start));
    for i := 0 to n
      invariant inp.Valid()
      invariant DecodeAll(e, n, start) == Prepend(arr[..i], DecodeAll(e, n - i, inp.Remaining()))
    {
      ReadElementStep(arr[..i], e, n - i, inp.Remaining());
      var v := Read(inp, e);
      if v.None? {
        return None;
      }
      arr[i] := v.value;
      assert arr[..i + 1] == arr[..i] + [v.value];
    }
    PrependAll(arr[..], inp.Remaining());
    return Some(ListV(arr[..]));
  }

  /** ReadMembers: each member of the members tuple in order, threading a
      failed flag; once a member fails the later ones are skipped and the
      whole read returns Error. */
  method ReadMembers(inp: StringReader, fs: seq<Shape>) returns (r: Option<Value>)
    requires inp.Valid()
    modifies inp
    ensures inp.Valid()
    ensures Reads(Decode(Members(fs), old(inp.Remaining())), r, inp.Remaining())
    decreases Members(fs), 0
  {
    ghost var start := inp.Remaining();
    var value: seq<Value> := [];
    var failed := false;
    assert fs[0..] == fs;
    PrependNothing(DecodeFields(fs, start));
    for i := 0 to |fs|
      invariant inp.Valid()
      invariant failed ==> DecodeFields(fs, start).None?
      invariant !failed ==> DecodeFields(fs, start) == Prepend(value, DecodeFields(fs[i..], inp.Remaining()))
    {
      if !failed {
        ReadMemberStep(value, fs, i, inp.Remaining());
        var m := Read(inp, fs[i]);
        if m.None? {
          failed := true;
        } else {
          value := value + [m.value];
        }
      }
    }
    assert fs[|fs|..] == [];
    PrependAll(value, inp.Remaining());
    if failed {
      return None;
    }
    return Some(RecordV(value));
  }
}
