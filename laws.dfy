/** What the format promises: every shape round-trips and consumes exactly the
    bytes its encoding produced, decoding never looks past the bytes it
    consumes, a truncated encoding never decodes, and the encoded lengths
    follow the size_t-prefix and fixed-size rules. */
module Laws {
  import opened Bytes
  import opened Shapes
  import opened Format

  lemma DecodePodPrefix(w: nat, x: seq<byte>, rest: seq<byte>)
    requires |x| == w
    ensures DecodePod(w, x + rest) == Some((x, rest))
  {
    assert (x + rest)[..w] == x && (x + rest)[w..] == rest;
  }

  lemma DecodeCountPrefix(n: nat, rest: seq<byte>)
    requires n < SizeTLimit
    ensures DecodeCount(CountBytes(n) + rest) == Some((n, rest))
  {
    DecodePodPrefix(SizeTWidth, CountBytes(n), rest);
  }

  lemma DecodeBoolPrefix(b: bool, rest: seq<byte>)
    ensures DecodeBool(BoolBytes(b) + rest) == Some((b, rest))
  {
    DecodePodPrefix(1, BoolBytes(b), rest);
  }

  /** A count followed by its block reads back as that count and block. */
  lemma DecodeBlockPrefix(w: nat, n: nat, block: seq<byte>, rest: seq<byte>)
    requires n < SizeTLimit && |block| == n * w
    ensures DecodeBlock(w, CountBytes(n) + block + rest) == Some(((n, block), rest))
  {
    assert CountBytes(n) + block + rest == CountBytes(n) + (block + rest);
    DecodeCountPrefix(n, block + rest);
    DecodePodPrefix(n * w, block, rest);
  }

  lemma DecodeEncodeText(chars: seq<byte>, rest: seq<byte>)
    requires |chars| < SizeTLimit
    ensures Decode(Text, Encode(Text, TextV(chars)) + rest) == Some((TextV(chars), rest))
  {
    DecodeBlockPrefix(1, |chars|, chars, rest);
  }

  lemma DecodeEncodePodVector(w: nat, items: seq<seq<byte>>, rest: seq<byte>)
    requires WellTyped(PodVector(w), PodVectorV(items))
    ensures Decode(PodVector(w), Encode(PodVector(w), PodVectorV(items)) + rest)
         == Some((PodVectorV(items), rest))
  {
    var block := Flatten(items);
    SplitFlatten(items, w);
    DecodeBlockPrefix(w, |items|, block, rest);
  }

  /** Reading back what was written yields the value written and leaves the
      bytes after it untouched. */
  lemma {:induction false} DecodeEncode(s: Shape, v: Value, rest: seq<byte>)
    requires WellTyped(s, v)
    ensures Decode(s, Encode(s, v) + rest) == Some((v, rest))
    decreases s, 0
  {
    var bs := Encode(s, v) + rest;
    match s
    case Pod(w) =>
      DecodePodPrefix(w, v.bytes, rest);
    case Bool =>
      DecodeBoolPrefix(v.b, rest);
    case Text =>
      DecodeEncodeText(v.chars, rest);
    case PodVector(w) =>
      DecodeEncodePodVector(w, v.items, rest);
    case Vector(e) =>
      var n := |v.elems|;
      assert bs == CountBytes(n) + (EncodeAll(e, v.elems) + rest);
      assert DecodeCount(bs) == Some((n, EncodeAll(e, v.elems) + rest)) by {
        DecodeCountPrefix(n, EncodeAll(e, v.elems) + rest);
      }
      assert DecodeAll(e, n, EncodeAll(e, v.elems) + rest) == Some((v.elems, rest)) by {
        DecodeEncodeAll(e, v.elems, rest);
      }
    case Optional(e) =>
      if v.NoneV? {
        DecodeBoolPrefix(false, rest);
      } else {
        assert bs == BoolBytes(true) + (Encode(e, v.inner) + rest);
        assert DecodeBool(bs) == Some((true, Encode(e, v.inner) + rest)) by {
          DecodeBoolPrefix(true, Encode(e, v.inner) + rest);
        }
        assert Decode(e, Encode(e, v.inner) + rest) == Some((v.inner, rest)) by {
          DecodeEncode(e, v.inner, rest);
        }
      }
    case Array(n, e) =>
      assert DecodeAll(e, n, bs) == Some((v.elems, rest)) by {
        DecodeEncodeAll(e, v.elems, rest);
      }
    case Members(fs) =>
      assert DecodeFields(fs, bs) == Some((v.fields, rest)) by {
        DecodeEncodeFields(fs, v.fields, rest);
      }
  }

  lemma {:induction false} DecodeEncodeAll(e: Shape, vs: seq<Value>, rest: seq<byte>)
    requires forall i | 0 <= i < |vs| :: WellTyped(e, vs[i])
    ensures DecodeAll(e, |vs|, EncodeAll(e, vs) + rest) == Some((vs, rest))
    decreases e, |vs|
  {
    if vs != [] {
      var tail := EncodeAll(e, vs[1..]) + rest;
      assert EncodeAll(e, vs) + rest == Encode(e, vs[0]) + tail;
      assert Decode(e, Encode(e, vs[0]) + tail) == Some((vs[0], tail)) by {
        DecodeEncode(e, vs[0], tail);
      }
      assert DecodeAll(e, |vs| - 1, tail) == Some((vs[1..], rest)) by {
        DecodeEncodeAll(e, vs[1..], rest);
      }
      assert [vs[0]] + vs[1..] == vs;
    } else {
      assert EncodeAll(e, vs) + rest == rest;
    }
  }

  lemma {:induction false} DecodeEncodeFields(fs: seq<Shape>, vs: seq<Value>, rest: seq<byte>)
    requires |vs| == |fs|
    requires forall i | 0 <= i < |fs| :: WellTyped(fs[i], vs[i])
    ensures DecodeFields(fs, EncodeFields(fs, vs) + rest) == Some((vs, rest))
    decreases fs, 0
  {
    if fs != [] {
      var tail := EncodeFields(fs[1..], vs[1..]) + rest;
      assert EncodeFields(fs, vs) + rest == Encode(fs[0], vs[0]) + tail;
      assert Decode(fs[0], Encode(fs[0], vs[0]) + tail) == Some((vs[0], tail)) by {
        DecodeEncode(fs[0], vs[0], tail);
      }
      assert DecodeFields(fs[1..], tail) == Some((vs[1..], rest)) by {
        DecodeEncodeFields(fs[1..], vs[1..], rest);
      }
      assert [vs[0]] + vs[1..] == vs;
    } else {
      assert EncodeFields(fs, vs) + rest == rest;
    }
  }

  /** rest is what bs leaves after some prefix of it. */
  ghost predicate IsSuffix(rest: seq<byte>, bs: seq<byte>)
  {
    |rest| <= |bs| && bs[|bs| - |rest|..] == rest
  }

  lemma SuffixTransitive(a: seq<byte>, b: seq<byte>, c: seq<byte>)
    requires IsSuffix(a, b) && IsSuffix(b, c)
    ensures IsSuffix(a, c)
  {
    assert c[|c| - |a|..] == c[|c| - |b|..][|b| - |a|..];
  }

  /** Whatever a read returns is a value of the shape, what it leaves unread
      is a suffix of its input, and it consumed exactly as many bytes as
      writing that value produces. */
  lemma {:induction false} DecodeSound(s: Shape, bs: seq<byte>)
    requires Decode(s, bs).Some?
    ensures WellTyped(s, Decode(s, bs).value.0)
    ensures IsSuffix(Decode(s, bs).value.1, bs)
    ensures |Encode(s, Decode(s, bs).value.0)| == |bs| - |Decode(s, bs).value.1|
    decreases s, 0
  {
    match s
    case Pod(_) =>
      DecodeFlatSound(s, bs);
    case Bool =>
      DecodeFlatSound(s, bs);
    case Text =>
      DecodeFlatSound(s, bs);
    case PodVector(w) =>
      DecodePodVectorSound(w, bs);
    case Vector(e) =>
      DecodeVectorSound(e, bs);
    case Optional(e) =>
      DecodeOptionalSound(e, bs);
    case Array(n, e) =>
      DecodeArraySound(n, e, bs);
    case Members(fs) =>
      DecodeMembersSound(fs, bs);
  }

  lemma DecodeFlatSound(s: Shape, bs: seq<byte>)
    requires s.Pod? || s.Bool? || s.Text?
    requires Decode(s, bs).Some?
    ensures WellTyped(s, Decode(s, bs).value.0)
    ensures IsSuffix(Decode(s, bs).value.1, bs)
    ensures |Encode(s, Decode(s, bs).value.0)| == |bs| - |Decode(s, bs).value.1|
  {
  }

  lemma {:induction false} DecodeArraySound(n: nat, e: Shape, bs: seq<byte>)
    requires Decode(Array(n, e), bs).Some?
    ensures WellTyped(Array(n, e), Decode(Array(n, e), bs).value.0)
    ensures IsSuffix(Decode(Array(n, e), bs).value.1, bs)
    ensures |Encode(Array(n, e), Decode(Array(n, e), bs).value.0)| == |bs| - |Decode(Array(n, e), bs).value.1|
    decreases e, n + 1
  {
    DecodeAllSound(e, n, bs);
  }

  lemma {:induction false} DecodeMembersSound(fs: seq<Shape>, bs: seq<byte>)
    requires Decode(Members(fs), bs).Some?
    ensures WellTyped(Members(fs), Decode(Members(fs), bs).value.0)
    ensures IsSuffix(Decode(Members(fs), bs).value.1, bs)
    ensures |Encode(Members(fs), Decode(Members(fs), bs).value.0)| == |bs| - |Decode(Members(fs), bs).value.1|
    decreases fs, 1
  {
    DecodeFieldsSound(fs, bs);
  }

  lemma {:induction false} DecodeVectorSound(e: Shape, bs: seq<byte>)
    requires Decode(Vector(e), bs).Some?
    ensures WellTyped(Vector(e), Decode(Vector(e), bs).value.0)
    ensures IsSuffix(Decode(Vector(e), bs).value.1, bs)
    ensures |Encode(Vector(e), Decode(Vector(e), bs).value.0)| == |bs| - |Decode(Vector(e), bs).value.1|
    decreases e, SizeTLimit
  {
    var (n, r0) := DecodeCount(bs).value;
    var (vs, rest) := DecodeAll(e, n, r0).value;
    DecodeAllSound(e, n, r0);
    SuffixTransitive(rest, r0, bs);
    assert |Encode(Vector(e), ListV(vs))| == SizeTWidth + |EncodeAll(e, vs)|;
  }

  lemma {:induction false} DecodeOptionalSound(e: Shape, bs: seq<byte>)
    requires Decode(Optional(e), bs).Some?
    ensures WellTyped(Optional(e), Decode(Optional(e), bs).value.0)
    ensures IsSuffix(Decode(Optional(e), bs).value.1, bs)
    ensures |Encode(Optional(e), Decode(Optional(e), bs).value.0)| == |bs| - |Decode(Optional(e), bs).value.1|
    decreases e, 1
  {
    var (flag, r0) := DecodeBool(bs).value;
    if flag {
      DecodeSound(e, r0);
      SuffixTransitive(Decode(e, r0).value.1, r0, bs);
    }
  }

  lemma DecodePodVectorSound(w: nat, bs: seq<byte>)
    requires Decode(PodVector(w), bs).Some?
    ensures WellTyped(PodVector(w), Decode(PodVector(w), bs).value.0)
    ensures IsSuffix(Decode(PodVector(w), bs).value.1, bs)
    ensures |Encode(PodVector(w), Decode(PodVector(w), bs).value.0)| == |bs| - |Decode(PodVector(w), bs).value.1|
    ensures Flatten(Decode(PodVector(w), bs).value.0.items)
         == bs[SizeTWidth..|bs| - |Decode(PodVector(w), bs).value.1|]
  {
    var (n, block) := DecodeBlock(w, bs).value.0;
    assert |Flatten(Split(block, w, n))| == |block|;
  }

  lemma {:induction false} DecodeAllSound(e: Shape, k: nat, bs: seq<byte>)
    requires DecodeAll(e, k, bs).Some?
    ensures |DecodeAll(e, k, bs).value.0| == k
    ensures forall i | 0 <= i < k :: WellTyped(e, DecodeAll(e, k, bs).value.0[i])
    ensures IsSuffix(DecodeAll(e, k, bs).value.1, bs)
    ensures |EncodeAll(e, DecodeAll(e, k, bs).value.0)| == |bs| - |DecodeAll(e, k, bs).value.1|
    decreases e, k
  {
    if k > 0 {
      var (v, r0) := Decode(e, bs).value;
      var (vs, rest) := DecodeAll(e, k - 1, r0).value;
      DecodeSound(e, bs);
      DecodeAllSound(e, k - 1, r0);
      SuffixTransitive(rest, r0, bs);
      var all := [v] + vs;
      assert all[0] == v && all[1..] == vs;
      assert forall i | 1 <= i < k :: all[i] == vs[i - 1];
    }
  }

  lemma {:induction false} DecodeFieldsSound(fs: seq<Shape>, bs: seq<byte>)
    requires DecodeFields(fs, bs).Some?
    ensures |DecodeFields(fs, bs).value.0| == |fs|
    ensures forall i | 0 <= i < |fs| :: WellTyped(fs[i], DecodeFields(fs, bs).value.0[i])
    ensures IsSuffix(DecodeFields(fs, bs).value.1, bs)
    ensures |EncodeFields(fs, DecodeFields(fs, bs).value.0)| == |bs| - |DecodeFields(fs, bs).value.1|
    decreases fs, 0
  {
    if fs != [] {
      var (v, r0) := Decode(fs[0], bs).value;
      var (vs, rest) := DecodeFields(fs[1..], r0).value;
      DecodeSound(fs[0], bs);
      DecodeFieldsSound(fs[1..], r0);
      SuffixTransitive(rest, r0, bs);
      var all := [v] + vs;
      assert all[0] == v && all[1..] == vs;
      assert forall i | 1 <= i < |fs| :: all[i] == vs[i - 1] && fs[i] == fs[1..][i - 1];
    }
  }

  lemma DecodePodExtend(w: nat, bs: seq<byte>, more: seq<byte>)
    requires w <= |bs|
    ensures DecodePod(w, bs + more) == Some((bs[..w], bs[w..] + more))
  {
    assert (bs + more)[..w] == bs[..w] && (bs + more)[w..] == bs[w..] + more;
  }

  /** Decoding never depends on bytes after the ones it consumes: appending
      anything to a decodable input appends the same to what is left over. */
  lemma {:induction false} DecodeExtend(s: Shape, bs: seq<byte>, more: seq<byte>)
    requires Decode(s, bs).Some?
    ensures Decode(s, bs + more) == Some((Decode(s, bs).value.0, Decode(s, bs).value.1 + more))
    decreases s, 0
  {
    match s
    case Pod(w) =>
      DecodePodExtend(w, bs, more);
    case Bool =>
      DecodePodExtend(1, bs, more);
    case Text =>
      DecodePodExtend(SizeTWidth, bs, more);
      var c := DecodeCount(bs).value;
      DecodePodExtend(c.0 * 1, c.1, more);
    case PodVector(w) =>
      DecodePodExtend(SizeTWidth, bs, more);
      var c := DecodeCount(bs).value;
      DecodePodExtend(c.0 * w, c.1, more);
    case Vector(e) =>
      DecodePodExtend(SizeTWidth, bs, more);
      var c := DecodeCount(bs).value;
      DecodeAllExtend(e, c.0, c.1, more);
    case Optional(e) =>
      DecodePodExtend(1, bs, more);
      var f := DecodeBool(bs).value;
      if f.0 {
        DecodeExtend(e, f.1, more);
      }
    case Array(n, e) =>
      DecodeAllExtend(e, n, bs, more);
    case Members(fs) =>
      DecodeFieldsExtend(fs, bs, more);
  }

  lemma {:induction false} DecodeAllExtend(e: Shape, k: nat, bs: seq<byte>, more: seq<byte>)
    requires DecodeAll(e, k, bs).Some?
    ensures DecodeAll(e, k, bs + more) == Some((DecodeAll(e, k, bs).value.0, DecodeAll(e, k, bs).value.1 + more))
    decreases e, k
  {
    if k > 0 {
      var h := Decode(e, bs).value;
      var t := DecodeAll(e, k - 1, h.1).value;
      assert Decode(e, bs + more) == Some((h.0, h.1 + more)) by {
        DecodeExtend(e, bs, more);
      }
      assert DecodeAll(e, k - 1, h.1 + more) == Some((t.0, t.1 + more)) by {
        DecodeAllExtend(e, k - 1, h.1, more);
      }
    }
  }

  lemma {:induction false} DecodeFieldsExtend(fs: seq<Shape>, bs: seq<byte>, more: seq<byte>)
    requires DecodeFields(fs, bs).Some?
    ensures DecodeFields(fs, bs + more) == Some((DecodeFields(fs, bs).value.0, DecodeFields(fs, bs).value.1 + more))
    decreases fs, 0
  {
    if fs != [] {
      var h := Decode(fs[0], bs).value;
      var t := DecodeFields(fs[1..], h.1).value;
      assert Decode(fs[0], bs + more) == Some((h.0, h.1 + more)) by {
        DecodeExtend(fs[0], bs, more);
      }
      assert DecodeFields(fs[1..], h.1 + more) == Some((t.0, t.1 + more)) by {
        DecodeFieldsExtend(fs[1..], h.1, more);
      }
    }
  }

  /** Fail-fast on truncation: every proper prefix of an encoding fails to
      decode, so a cut-off stream never yields a silently wrong value. */
  lemma TruncatedFails(s: Shape, v: Value, k: nat)
    requires WellTyped(s, v)
    requires k < |Encode(s, v)|
    ensures Decode(s, Encode(s, v)[..k]) == None
  {
    var enc := Encode(s, v);
    var cut := enc[..k];
    if Decode(s, cut).Some? {
      DecodeExtend(s, cut, enc[k..]);
      assert cut + enc[k..] == enc + [];
      DecodeEncode(s, v, []);
      assert false;
    }
  }

  /** The encoding length of a shape whose every value encodes to the same
      number of bytes; None for shapes with a count prefix or a flag. */
  function FixedWidth(s: Shape): Option<nat>
    decreases s, 0
  {
    match s
    case Pod(w) => Some(w)
    case Bool => Some(1)
    case Array(n, e) =>
      var w := FixedWidth(e);
      if w.None? then None else Some(n * w.value)
    case Members(fs) => FixedWidthOfAll(fs)
    case _ => None
  }

  function FixedWidthOfAll(fs: seq<Shape>): Option<nat>
    decreases fs, 0
  {
    if fs == [] then Some(0)
    else
      var h := FixedWidth(fs[0]);
      var t := FixedWidthOfAll(fs[1..]);
      if h.None? || t.None? then None else Some(h.value + t.value)
  }

  /** A shape with a fixed width encodes every value in exactly that many bytes. */
  lemma {:induction false} EncodeFixedWidth(s: Shape, v: Value)
    requires WellTyped(s, v) && FixedWidth(s).Some?
    ensures |Encode(s, v)| == FixedWidth(s).value
    decreases s, 0
  {
    match s
    case Pod(_) =>
    case Bool =>
    case Array(n, e) =>
      EncodeAllFixedWidth(e, v.elems);
    case Members(fs) =>
      EncodeFieldsFixedWidth(fs, v.fields);
  }

  lemma {:induction false} EncodeAllFixedWidth(e: Shape, vs: seq<Value>)
    requires forall i | 0 <= i < |vs| :: WellTyped(e, vs[i])
    requires FixedWidth(e).Some?
    ensures |EncodeAll(e, vs)| == |vs| * FixedWidth(e).value
    decreases e, |vs|
  {
    if vs != [] {
      EncodeFixedWidth(e, vs[0]);
      EncodeAllFixedWidth(e, vs[1..]);
      assert |EncodeAll(e, vs)| == FixedWidth(e).value + (|vs| - 1) * FixedWidth(e).value;
    }
  }

  lemma {:induction false} EncodeFieldsFixedWidth(fs: seq<Shape>, vs: seq<Value>)
    requires |vs| == |fs|
    requires forall i | 0 <= i < |fs| :: WellTyped(fs[i], vs[i])
    requires FixedWidthOfAll(fs).Some?
    ensures |EncodeFields(fs, vs)| == FixedWidthOfAll(fs).value
    decreases fs, 0
  {
    if fs != [] {
      EncodeFixedWidth(fs[0], vs[0]);
      EncodeFieldsFixedWidth(fs[1..], vs[1..]);
    }
  }

  /** A text is its size_t count followed by exactly its characters. */
  lemma TextLayout(chars: seq<byte>)
    requires |chars| < SizeTLimit
    ensures |Encode(Text, TextV(chars))| == SizeTWidth + |chars|
    ensures Encode(Text, TextV(chars))[..SizeTWidth] == CountBytes(|chars|)
    ensures Encode(Text, TextV(chars))[SizeTWidth..] == chars
  {
  }

  /** A vector of POD is its count followed by count * sizeof(element) bytes. */
  lemma PodVectorLength(w: nat, items: seq<seq<byte>>)
    requires WellTyped(PodVector(w), PodVectorV(items))
    ensures |Encode(PodVector(w), PodVectorV(items))| == SizeTWidth + |items| * w
  {
    FlattenLength(items, w);
  }

  /** A vector of non-POD elements of fixed width w is its count followed by
      count * w bytes. */
  lemma VectorLength(e: Shape, vs: seq<Value>)
    requires WellTyped(Vector(e), ListV(vs)) && FixedWidth(e).Some?
    ensures |Encode(Vector(e), ListV(vs))| == SizeTWidth + |vs| * FixedWidth(e).value
  {
    EncodeAllFixedWidth(e, vs);
  }

  /** A std::array carries no count: N elements of fixed width w take N * w bytes. */
  lemma ArrayLength(n: nat, e: Shape, vs: seq<Value>)
    requires WellTyped(Array(n, e), ListV(vs)) && FixedWidth(e).Some?
    ensures |Encode(Array(n, e), ListV(vs))| == n * FixedWidth(e).value
  {
    EncodeAllFixedWidth(e, vs);
  }

  /** An absent optional is one false byte; a present one is a true byte and
      then the payload's own encoding. */
  lemma OptionalLayout(e: Shape, v: Value)
    requires WellTyped(Optional(e), v)
    ensures v.NoneV? ==> Encode(Optional(e), v) == [0]
    ensures v.SomeV? ==> Encode(Optional(e), v) == [1] + Encode(e, v.inner)
  {
  }

  /** A false flag yields an absent optional without reading anything more,
      whatever the payload shape and whatever follows the flag. */
  lemma OptionalAbsentReadsNothingMore(e: Shape, bs: seq<byte>)
    requires |bs| >= 1 && bs[0] == 0
    ensures Decode(Optional(e), bs) == Some((NoneV, bs[1..]))
  {
  }

  /** Writing one more element extends the element encodings by its encoding. */
  lemma {:induction false} EncodeAllAppend(e: Shape, vs: seq<Value>, x: Value)
    ensures EncodeAll(e, vs + [x]) == EncodeAll(e, vs) + Encode(e, x)
    decreases |vs|
  {
    var ys := vs + [x];
    if vs == [] {
      assert ys == [x] && ys[1..] == [];
    } else {
      assert ys[0] == vs[0] && ys[1..] == vs[1..] + [x];
      assert EncodeAll(e, ys) == Encode(e, vs[0]) + EncodeAll(e, vs[1..] + [x]);
      EncodeAllAppend(e, vs[1..], x);
    }
  }

  /** Writing one more member extends the member encodings by its encoding. */
  lemma {:induction false} EncodeFieldsAppend(fs: seq<Shape>, vs: seq<Value>, f: Shape, x: Value)
    requires |vs| == |fs|
    ensures EncodeFields(fs + [f], vs + [x]) == EncodeFields(fs, vs) + Encode(f, x)
    decreases |fs|
  {
    if fs == [] {
      assert [] + [f] == [f] && [f][1..] == [];
      assert [] + [x] == [x] && [x][1..] == [];
    } else {
      assert (fs + [f])[1..] == fs[1..] + [f];
      assert (vs + [x])[1..] == vs[1..] + [x];
      EncodeFieldsAppend(fs[1..], vs[1..], f, x);
    }
  }
}
