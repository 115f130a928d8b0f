/** What the transports share: record types, and handshake messages as they are handed up. */
module Ssl {
  import opened Bytes

  const SSL3_RT_CHANGE_CIPHER_SPEC: byte := 20
  const SSL3_RT_ALERT: byte := 21
  const SSL3_RT_HANDSHAKE: byte := 22
  const SSL3_RT_APPLICATION_DATA: byte := 23
  const SSL3_MT_CCS: byte := 1

  const SSL3_RT_MAX_PLAIN_LENGTH: nat := 16384

  /** A handshake message: raw includes the header. */
  datatype SSLMessage = SSLMessage(typ: byte, body: seq<byte>, raw: seq<byte>)
}
