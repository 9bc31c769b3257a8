/** The stream functions around the conversions of PB_CONVERT_DOUBLE_FLOAT builds. */
module DoubleStreams {
  import opened Wire
  import opened DoubleFloat
  import opened InputStream
  import opened Encoder

  /** pb_encode_float_as_double */
  method EncodeFloatAsDouble(stream: OStream, value: nat) returns (ok: bool, ghost d: nat)
    requires stream.Valid() && value < U32
    modifies stream, stream.buf
    ensures stream.Valid() && stream.Framed()
    ensures d < U64 && Widens(value, d)
    ensures ok <==> old(stream.Room(8))
    ensures ok ==> stream.out == old(stream.out) + EncFixed(d, 8)
  {
    hide Widens;
    var pattern := WidenFloat(value);
    d := pattern;
    ok := stream.Write(EncFixed(pattern, 8));
  }

  /** pb_decode_double_as_float */
  method DecodeDoubleAsFloat(stream: IStream) returns (ok: bool, dest: nat)
    requires stream.Valid()
    modifies stream
    ensures stream.Valid() && (ok <==> old(stream.bytesLeft) >= 8)
    ensures ok ==> stream.Consumed(8) && Narrows(DecLittle(old(stream.Rest())[..8]), dest)
  {
    hide Narrows;
    var value;
    ok, value := stream.DecodeFixed(8);
    dest := 0;
    if ok {
      LittleBound(stream.buf[stream.state - 8..stream.state]);
      FixedBound();
      assert stream.buf[stream.state - 8..stream.state] == old(stream.Rest())[..8];
      dest := NarrowDouble(value);
    }
  }

  /** Eight bytes written for a float are read back as the same 32-bit pattern. */
  lemma FloatSurvives(i: nat, d: nat, tail: Bytes, dest: nat)
    requires i < U32 && d < U64
    ensures Widens(i, d) && Narrows(DecLittle((EncFixed(d, 8) + tail)[..8]), dest) ==> dest == i
  {
    hide Widens, Narrows;
    FixedRoundTrip(d, 8, tail);
    NarrowInvertsWiden(i, d, dest);
  }
}
