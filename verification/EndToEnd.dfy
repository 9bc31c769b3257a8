/** The encoder followed by the decoder, and the sizing pass followed by the writing one, as callers use them. */
module EndToEnd {
  import opened Wire
  import opened Schema
  import opened Encoding
  import opened Decoding
  import opened Content
  import opened Encoder
  import opened InputStream
  import Decoder
  import FieldIter

  /**
   pb_encode into a buffer, then pb_decode of what was written over any previous struct.
   Encoding succeeds exactly when the message is encodable and its bytes fit; decoding
   them then succeeds and gives the same content.
   */
  method EncodeThenDecode(d: MsgDesc, m: Msg, prior: Msg, buf: array<Byte>, size: nat)
    returns (encoded: bool, decoded: bool, result: Msg)
    requires WfDesc(d) && FieldIter.WfTables(d) && MsgFits(d, m) && SizesFit(d, m) && MsgFits(d, prior)
    requires size <= buf.Length && (EncMsg(d, m).Some? ==> |EncMsg(d, m).value| < U32)
    modifies buf
    ensures EncMsg(d, m).Some? <==> Encodable(d, m)
    ensures encoded <==> EncMsg(d, m).Some? && |EncMsg(d, m).value| <= size
    ensures encoded ==> decoded && SameContent(d, m, result)
    ensures forall k :: size <= k < buf.Length ==> buf[k] == old(buf[k])
  {
    hide WfDesc, FieldIter.WfTables, MsgFits, SizesFit, Encodable, SameContent, EncMsg, DecMsg;
    EncodesIff(d, m);
    decoded, result := false, prior;
    var ostream := new OStream.FromBuffer(buf, 0, size);
    encoded := Encode(ostream, d, m);
    if encoded {
      DecodeInvertsEncode(d, m, prior);
      var istream := new IStream(buf, 0, ostream.bytesWritten);
      assert istream.Rest() == EncMsg(d, m).value;
      decoded, result := Decoder.DecodeInner(istream, d, prior, true);
    }
  }

  /** pb_get_encoded_size, then pb_encode into a buffer of exactly that size, which it fills. */
  method EncodeExactly(d: MsgDesc, m: Msg) returns (ok: bool, buf: array<Byte>)
    requires WfDesc(d) && FieldIter.WfTables(d) && MsgFits(d, m) && SizesFit(d, m)
    ensures fresh(buf)
    ensures ok <==> Encodable(d, m)
    ensures ok ==> EncMsg(d, m) == Some(buf[..])
  {
    hide WfDesc, FieldIter.WfTables, MsgFits, SizesFit, Encodable, EncMsg;
    EncodesIff(d, m);
    var size;
    ok, size := GetEncodedSize(d, m);
    if !ok {
      return false, new Byte[0](i => 0);
    }
    buf := new Byte[size](i => 0);
    var ostream := new OStream.FromBuffer(buf, 0, size);
    ok := Encode(ostream, d, m);
    assert buf[0..size] == buf[..];
  }
}
