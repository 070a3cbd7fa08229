/** The accept key of the WebSocket handshake (section 4.2.2 of RFC 6455). */
module WebSocketHandshake {
  import opened Serial
  import Sha1Spec
  import Sha1
  import Base64

  const GUID: string := "258EAFA5-E914-47DA-95CA-C5AB0DC85B11"

  /** The octets of an ASCII string. */
  function Ascii(s: string): seq<Sha1Spec.Byte>
    requires forall i :: 0 <= i < |s| ==> s[i] as int < 128
  {
    seq(|s|, i requires 0 <= i < |s| => (s[i] as int) as Sha1Spec.Byte)
  }

  function Numbers(b: seq<Sha1Spec.Byte>): (n: seq<byte>)
    ensures |n| == |b|
  {
    seq(|b|, i requires 0 <= i < |b| => b[i] as int)
  }

  function Guid(): (g: seq<Sha1Spec.Byte>)
    ensures |g| == 36
  {
    Ascii(GUID)
  }

  /** `wsHandshake`. */
  method Handshake(secKey: seq<Sha1Spec.Byte>) returns (accept: string)
    requires |secKey| + 36 < TWO32 - 128
    ensures accept == Base64.Encoding(Numbers(Sha1Spec.Sha1(secKey + Guid())))
    ensures |accept| == 28
  {
    hide Base64.Encoding, Sha1Spec.Fold, Sha1Spec.Pad, Guid, Numbers;
    var sha := new Sha1.Sha();
    var text := secKey + Guid();
    sha.Update(text, []);
    assert [] + text == text;
    sha.Final(text);
    accept := Base64.Encode(Numbers(sha.digest));
    Base64.EncodingLength(Numbers(sha.digest));
  }
}
