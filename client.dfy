/** How the codec is used: values of several types written one after another
    into one StringWriter, and a StringReader over the resulting string that
    reads them back in the same order. */
module Client {
  import opened Bytes
  import opened Shapes
  import opened Format
  import opened Laws
  import opened Streams
  import opened Engine

  /** Writes each value with its own shape by a top-level Write, then reads
      the whole string back by one top-level Read per shape: every read
      returns the value written, and the reader ends exactly at the end of
      the string. */
  method WriteThenReadBack(shapes: seq<Shape>, vals: seq<Value>) returns (got: seq<Option<Value>>, unread: nat)
    requires |vals| == |shapes|
    requires forall i | 0 <= i < |shapes| :: WellTyped(shapes[i], vals[i])
    ensures |got| == |vals|
    ensures forall i | 0 <= i < |vals| :: got[i] == Some(vals[i])
    ensures unread == 0
  {
    var out := new StringWriter();
    for i := 0 to |shapes|
      invariant out.buf == EncodeFields(shapes[..i], vals[..i])
    {
      Write(out, shapes[i], vals[i]);
      EncodeFieldsPrefixStep(shapes, vals, i);
    }
    assert shapes[..|shapes|] == shapes && vals[..|shapes|] == vals;
    assert shapes[0..] == shapes && vals[0..] == vals;

    var inp := new StringReader(out.buf);
    got := [];
    for i := 0 to |shapes|
      invariant inp.Valid()
      invariant inp.Remaining() == EncodeFields(shapes[i..], vals[i..])
      invariant |got| == i
      invariant forall j | 0 <= j < i :: got[j] == Some(vals[j])
    {
      var rest := EncodeFields(shapes[i + 1..], vals[i + 1..]);
      assert inp.Remaining() == Encode(shapes[i], vals[i]) + rest by {
        assert shapes[i..][0] == shapes[i] && shapes[i..][1..] == shapes[i + 1..];
        assert vals[i..][0] == vals[i] && vals[i..][1..] == vals[i + 1..];
      }
      DecodeEncode(shapes[i], vals[i], rest);
      var r := Read(inp, shapes[i]);
      got := got + [r];
    }
    assert shapes[|shapes|..] == [];
    unread := |inp.Remaining()|;
  }
}
