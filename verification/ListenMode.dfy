/** What the two card emulations and the protocol under them share. */
module ListenMode {
  /** The size of rxtxFrameBuf, the one buffer for commands and responses. */
  const BUF_SIZE: nat := 512

  /** States of the NFC library's listen mode. */
  datatype ListenState = ActiveA | ActiveAx | CardEmu4A | SleepA | Idle | OtherState

  predicate Active(s: ListenState) {
    s.ActiveA? || s.ActiveAx?
  }
}
