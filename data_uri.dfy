/**
 * image_to_data_uri: the uploaded image's octets, base64-encoded behind a
 * fixed `data:` header that declares them JPEG. Nothing inspects the octets,
 * so any bytes at all are labelled image/jpeg.
 */
module DataUri {
  import opened Wrappers
  import opened Base64

  const JpegHeader: string := "data:image/jpeg;base64,"

  /** The data URI the model receives for an image. */
  function ImageToDataUri(image: seq<byte>): (uri: string)
    ensures |uri| == |JpegHeader| + EncodedLength(|image|)
  {
    JpegHeader + Encode(image)
  }

  /** The payload of a text that begins with the JPEG header; None for any other text. */
  function Payload(uri: string): (payload: Option<string>)
    ensures payload.Some? <==> |uri| >= |JpegHeader| && uri[..|JpegHeader|] == JpegHeader
    ensures payload.Some? ==> uri == JpegHeader + payload.value
  {
    if |uri| >= |JpegHeader| && uri[..|JpegHeader|] == JpegHeader then
      Some(uri[|JpegHeader|..])
    else
      None
  }

  /** What a consumer of the URI recovers: the decoded payload, or None if the URI is malformed. */
  function DecodeDataUri(uri: string): Option<seq<byte>> {
    match Payload(uri)
    case None => None
    case Some(payload) => Decode(payload)
  }

  /**
   * The URI is the header followed by exactly the encoding of the image:
   * 23 + 4 * ceil(n / 3) characters, alphabet characters then at most two pads.
   */
  lemma DataUriShape(image: seq<byte>)
    ensures var uri := ImageToDataUri(image);
      && Payload(uri) == Some(Encode(image))
      && |uri| == 23 + 4 * ((|image| + 2) / 3)
      && WellPadded(Payload(uri).value, PadLength(|image|))
  {
    var uri := ImageToDataUri(image);
    assert uri[..|JpegHeader|] == JpegHeader;
    assert uri[|JpegHeader|..] == Encode(image);
    EncodedLengthIsFourCeilThirds(|image|);
    EncodeShape(image);
  }

  /** Decoding the payload of the URI gives back the image octets exactly. */
  lemma DataUriRoundTrip(image: seq<byte>)
    ensures DecodeDataUri(ImageToDataUri(image)) == Some(image)
  {
    DataUriShape(image);
    DecodeEncode(image);
  }

  /** A URI decodes to an image iff it is the URI built from that image. */
  lemma DataUriExact(uri: string, image: seq<byte>)
    ensures DecodeDataUri(uri) == Some(image) <==> uri == ImageToDataUri(image)
  {
    if uri == ImageToDataUri(image) {
      DataUriRoundTrip(image);
    }
    if DecodeDataUri(uri) == Some(image) {
      DecodeIffEncoding(Payload(uri).value, image);
    }
  }
}
