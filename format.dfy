/** The wire format as two pure functions: Encode gives the bytes every Write
    overload appends for a value, Decode gives what the matching Read overload
    returns for the bytes that remain in the source, together with the bytes it
    leaves unread. The imperative engine in module Engine is proved against
    these. */
module Format {
  import opened Bytes
  import opened Shapes

  /** The one-byte object image of a bool. */
  function BoolBytes(b: bool): (r: seq<byte>)
    ensures |r| == 1 && (r[0] != 0 <==> b)
  {
    if b then [1] else [0]
  }

  /** Write<T> for a type of shape s. Only a value of the shape is ever
      written (the C++ type system sees to that); any other pairing encodes to
      nothing. */
  function Encode(s: Shape, v: Value): (r: seq<byte>)
    ensures s.Pod? && WellTyped(s, v) ==> |r| == s.width
    ensures s.Optional? && WellTyped(s, v) ==> 1 <= |r| && (r[0] != 0 <==> v.SomeV?)
    ensures s.Text? && WellTyped(s, v) ==>
      SizeTWidth <= |r| && FromLittleEndian(r[..SizeTWidth]) == |v.chars|
    ensures s.PodVector? && WellTyped(s, v) ==>
      SizeTWidth <= |r| && FromLittleEndian(r[..SizeTWidth]) == |v.items|
    ensures s.Vector? && WellTyped(s, v) ==>
      SizeTWidth <= |r| && FromLittleEndian(r[..SizeTWidth]) == |v.elems|
    decreases s, 0
  {
    match (s, v)
    case (Pod(_), PodV(bytes)) => bytes
    case (Bool, BoolV(b)) => BoolBytes(b)
    case (Text, TextV(chars)) => CountBytes(|chars|) + chars
    case (PodVector(_), PodVectorV(items)) => CountBytes(|items|) + Flatten(items)
    case (Vector(e), ListV(elems)) => CountBytes(|elems|) + EncodeAll(e, elems)
    case (Optional(_), NoneV) => BoolBytes(false)
    case (Optional(e), SomeV(inner)) => BoolBytes(true) + Encode(e, inner)
    case (Array(_, e), ListV(elems)) => EncodeAll(e, elems)
    case (Members(fs), RecordV(fields)) => EncodeFields(fs, fields)
    case _ => []
  }

  /** The element encodings of a Vector or an Array, one after another. */
  function EncodeAll(e: Shape, vs: seq<Value>): seq<byte>
    decreases e, |vs|
  {
    if vs == [] then [] else Encode(e, vs[0]) + EncodeAll(e, vs[1..])
  }

  /** The member encodings of a composite, in declared order. */
  function EncodeFields(fs: seq<Shape>, vs: seq<Value>): seq<byte>
    decreases fs, 0
  {
    if fs == [] || vs == [] then [] else Encode(fs[0], vs[0]) + EncodeFields(fs[1..], vs[1..])
  }

  /** A raw read of w bytes: fails when fewer than w remain. */
  function DecodePod(w: nat, bs: seq<byte>): (r: Option<(seq<byte>, seq<byte>)>)
    ensures r.Some? <==> w <= |bs|
    ensures r.Some? ==> r.value.0 + r.value.1 == bs && |r.value.0| == w
  {
    if |bs| < w then None else Some((bs[..w], bs[w..]))
  }

  /** Read<bool>: one raw byte, any nonzero byte meaning true. */
  function DecodeBool(bs: seq<byte>): (r: Option<(bool, seq<byte>)>)
    ensures r.Some? <==> 1 <= |bs|
    ensures r.Some? ==> r.value == (bs[0] != 0, bs[1..])
  {
    var p := DecodePod(1, bs);
    if p.None? then None else Some((p.value.0[0] != 0, p.value.1))
  }

  /** Read<size_t>: the count prefix. */
  function DecodeCount(bs: seq<byte>): (r: Option<(nat, seq<byte>)>)
    ensures r.Some? <==> SizeTWidth <= |bs|
    ensures r.Some? ==> r.value.0 == FromLittleEndian(bs[..SizeTWidth])
    ensures r.Some? ==> r.value.0 < SizeTLimit && r.value.1 == bs[SizeTWidth..]
  {
    var p := DecodePod(SizeTWidth, bs);
    if p.None? then None else Some((FromLittleEndian(p.value.0), p.value.1))
  }

  /** The read shared by std::string and std::vector<POD>: a count n, then one
      raw block of n elements of w bytes each. */
  function DecodeBlock(w: nat, bs: seq<byte>): (r: Option<((nat, seq<byte>), seq<byte>)>)
    ensures r.Some? <==> SizeTWidth <= |bs| && SizeTWidth + FromLittleEndian(bs[..SizeTWidth]) * w <= |bs|
    ensures r.Some? ==> r.value.0.0 == FromLittleEndian(bs[..SizeTWidth])
    ensures r.Some? ==> r.value.0.0 < SizeTLimit && |r.value.0.1| == r.value.0.0 * w
    ensures r.Some? ==> SizeTWidth + |r.value.0.1| <= |bs|
    ensures r.Some? ==> r.value.0.1 == bs[SizeTWidth..SizeTWidth + |r.value.0.1|]
    ensures r.Some? ==> r.value.1 == bs[SizeTWidth + |r.value.0.1|..]
  {
    var c := DecodeCount(bs);
    if c.None? then None
    else
      var p := DecodePod(c.value.0 * w, c.value.1);
      if p.None? then None else Some(((c.value.0, p.value.0), p.value.1))
  }

  /** Read<T> for a type of shape s: the value and the bytes left unread, or
      None for Error. */
  function Decode(s: Shape, bs: seq<byte>): (r: Option<(Value, seq<byte>)>)
    ensures r.Some? ==> |r.value.1| <= |bs|
    ensures bs == [] && (s.Bool? || s.Optional? || s.Text? || s.PodVector? || s.Vector?) ==> r.None?
    decreases s, 0
  {
    match s
    case Pod(w) =>
      var p := DecodePod(w, bs);
      if p.None? then None else Some((PodV(p.value.0), p.value.1))
    case Bool =>
      var p := DecodeBool(bs);
      if p.None? then None else Some((BoolV(p.value.0), p.value.1))
    case Text =>
      var b := DecodeBlock(1, bs);
      if b.None? then None else Some((TextV(b.value.0.1), b.value.1))
    case PodVector(w) =>
      var b := DecodeBlock(w, bs);
      if b.None? then None
      else
        var (n, block) := b.value.0;
        Some((PodVectorV(Split(block, w, n)), b.value.1))
    case Vector(e) =>
      var c := DecodeCount(bs);
      if c.None? then None
      else
        var p := DecodeAll(e, c.value.0, c.value.1);
        if p.None? then None else Some((ListV(p.value.0), p.value.1))
    case Optional(e) =>
      var f := DecodeBool(bs);
      if f.None? then None
      else if !f.value.0 then Some((NoneV, f.value.1))
      else
        var p := Decode(e, f.value.1);
        if p.None? then None else Some((SomeV(p.value.0), p.value.1))
    case Array(n, e) =>
      var p := DecodeAll(e, n, bs);
      if p.None? then None else Some((ListV(p.value.0), p.value.1))
    case Members(fs) =>
      var p := DecodeFields(fs, bs);
      if p.None? then None else Some((RecordV(p.value.0), p.value.1))
  }

  /** k elements of shape e in order, failing as soon as one fails. */
  function DecodeAll(e: Shape, k: nat, bs: seq<byte>): (r: Option<(seq<Value>, seq<byte>)>)
    ensures r.Some? ==> |r.value.0| == k && |r.value.1| <= |bs|
    decreases e, k
  {
    if k == 0 then Some(([], bs))
    else
      var h := Decode(e, bs);
      if h.None? then None
      else
        var t := DecodeAll(e, k - 1, h.value.1);
        if t.None? then None else Some(([h.value.0] + t.value.0, t.value.1))
  }

  /** The members of a composite in declared order, failing as soon as one fails. */
  function DecodeFields(fs: seq<Shape>, bs: seq<byte>): (r: Option<(seq<Value>, seq<byte>)>)
    ensures r.Some? ==> |r.value.0| == |fs| && |r.value.1| <= |bs|
    decreases fs, 0
  {
    if fs == [] then Some(([], bs))
    else
      var h := Decode(fs[0], bs);
      if h.None? then None
      else
        var t := DecodeFields(fs[1..], h.value.1);
        if t.None? then None else Some(([h.value.0] + t.value.0, t.value.1))
  }
}
