/** Authenticated encryption as a pair of functions (RFC 8439, section 2.8, seen from outside). */
module Aeads {
  import opened Bytes
  import opened Wrappers

  const TAG_SIZE := 16

  datatype Aead = Aead(
    seal: (seq<Byte>, seq<Byte>, seq<Byte>, seq<Byte>) -> seq<Byte>,          // key, nonce, aad, message
    open: (seq<Byte>, seq<Byte>, seq<Byte>, seq<Byte>) -> Option<seq<Byte>>)  // key, nonce, aad, ciphertext
  {
    /** Opening undoes sealing, and sealing adds 16 bytes. */
    ghost predicate Correct() {
      && (forall k, n, a, m :: open(k, n, a, seal(k, n, a, m)) == Some(m))
      && (forall k, n, a, m :: |seal(k, n, a, m)| == |m| + TAG_SIZE)
    }
  }
}
