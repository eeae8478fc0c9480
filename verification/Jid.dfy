/** WhatsApp user identifiers (`types.JID`). */
module Jid {
  import opened ByteStrings

  type UInt16 = x: int | 0 <= x < 0x1_0000

  datatype JID = JID(user: Bytes, rawAgent: Byte, device: UInt16, integrator: UInt16, server: Bytes)

  const DEFAULT_USER_SERVER := Ascii("s.whatsapp.net")
  const HIDDEN_USER_SERVER := Ascii("lid")
  const MESSENGER_SERVER := Ascii("msgr")
  const INTEROP_SERVER := Ascii("interop")
  const HOSTED_SERVER := Ascii("hosted")
  const HOSTED_LID_SERVER := Ascii("hosted.lid")

  const WHATSAPP_DOMAIN: Byte := 0
  const LID_DOMAIN: Byte := 1
  const HOSTED_DOMAIN: Byte := 128
  const HOSTED_LID_DOMAIN: Byte := 129

  lemma ServersDiffer()
    ensures |DEFAULT_USER_SERVER| == 14 && |HIDDEN_USER_SERVER| == 3 && |MESSENGER_SERVER| == 4
    ensures |INTEROP_SERVER| == 7 && |HOSTED_SERVER| == 6 && |HOSTED_LID_SERVER| == 10
  {
  }

  function NewJID(user: Bytes, server: Bytes): JID {
    JID(user, 0, 0, 0, server)
  }

  function ActualAgent(jid: JID): Byte {
    if jid.server == DEFAULT_USER_SERVER then WHATSAPP_DOMAIN
    else if jid.server == HIDDEN_USER_SERVER then LID_DOMAIN
    else if jid.server == HOSTED_SERVER then HOSTED_DOMAIN
    else if jid.server == HOSTED_LID_SERVER then HOSTED_LID_DOMAIN
    else jid.rawAgent
  }

  /** The domain byte picks the server; any other byte is kept as an agent and leaves the server empty. */
  function NewADJID(user: Bytes, agent: Byte, device: Byte): JID {
    if agent == LID_DOMAIN then JID(user, 0, device, 0, HIDDEN_USER_SERVER)
    else if agent == HOSTED_DOMAIN then JID(user, 0, device, 0, HOSTED_SERVER)
    else if agent == HOSTED_LID_DOMAIN then JID(user, 0, device, 0, HOSTED_LID_SERVER)
    else if agent == WHATSAPP_DOMAIN then JID(user, agent, device, 0, DEFAULT_USER_SERVER)
    else JID(user, agent, device, 0, [])
  }
}
