/**
 * The signed messages the trie stores in its leaves, as far as the sync
 * responder and the karma ledger look at them.
 */
module Messages {
  /** A stored message: a link submission with its signature. */
  datatype Message = Message(href: string, title: string, kind: string, timestamp: int, signature: string)
}
