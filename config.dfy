/** The guestbook's configuration constants. */
module Config {

  /** Longest accepted name, in code points. */
  const MaxNameLen: nat := 50

  /** Longest accepted message, in code points. */
  const MaxMsgLen: nat := 2000

  /** How many entries the page shows, newest first. */
  const ShowLimit: int := 200

  /** Seconds a client must wait between two accepted posts. */
  const CooldownSecs: int := 30

  /** The one-shot notice stored in the session after an accepted post. */
  const SavedNotice: string := "Danke! Dein Eintrag wurde gespeichert."
}
