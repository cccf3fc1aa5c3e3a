/** Identifiers and the plain records the bot keeps in its tables. */
module Records {
  /** A Discord user id, kept as the decimal string the bot uses as a JSON key. */
  type UserId = string

  /** A Meshtastic node id such as "!abc123". */
  type NodeId = string

  /** The id of a Discord message (a wizard prompt). */
  type MsgId = int

  /** One entry of preferences.json. */
  datatype Pref = Pref(dmNotifications: bool)

  /** One entry of messages.json: a text relayed from the mesh. */
  datatype LogEntry = LogEntry(nodeId: NodeId, timestamp: int, text: string)

  /** Size ceilings of the two evicting stores, in bytes. */
  const MaxMessagesFileSize: nat := 500_000_000
  const MaxPreferencesFileSize: nat := 10_000_000
}
