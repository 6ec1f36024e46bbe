/** The user-visible reason strings of the relay (messages.go). */
module Messages {

  /** Reason returned to a client whose event has a kind outside the allow-list. */
  const MsgInvalidEvent: string := "invalid-event: only wallet kinds are allowed"

  /** Prefix of the log line written when such an event is refused. Kept as
      context only: the log line itself is output and not part of the model. */
  const MsgPublishFail: string := "attempted to publish non-wallet kind"

  /** Reason returned to a client whose event fails the signature check. */
  const MsgInvalidSignature: string := "invalid-signature: authentication failed"
}
