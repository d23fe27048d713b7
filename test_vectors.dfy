/**
 * Inputs shared by the worked examples of the codecs: the ASCII bytes of
 * "f", "fo", "foo", "foob", "fooba" and "foobar", the test vectors of
 * section 10 of RFC 4648 (the seventh, "", is the empty sequence).
 */
module TestVectors {

  import opened Bits

  const F: seq<byte> := [102]
  const Fo: seq<byte> := [102, 111]
  const Foo: seq<byte> := [102, 111, 111]
  const Foob: seq<byte> := [102, 111, 111, 98]
  const Fooba: seq<byte> := [102, 111, 111, 98, 97]
  const Foobar: seq<byte> := [102, 111, 111, 98, 97, 114]
}
