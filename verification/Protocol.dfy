/** The bytes and tags of the daemon's text protocol. */
module Protocol {
  import opened Bytes

  const CR: byte := 13
  const LF: byte := 10
  const COLON: byte := 58
  const STATUS_TAG: seq<byte> := [83, 84, 65, 84, 85, 83, 58] // STATUS:
  const STDOUT_TAG: seq<byte> := [83, 84, 68, 79, 85, 84, 58] // STDOUT:
  const STDERR_TAG: seq<byte> := [83, 84, 68, 69, 82, 82, 58] // STDERR:

  lemma TagsSpell()
    ensures Spells(STATUS_TAG, "STATUS:") && Spells(STDOUT_TAG, "STDOUT:") && Spells(STDERR_TAG, "STDERR:")
    ensures Spells([CR, LF, COLON], "\r\n:")
  {
  }

  // The largest length that the host reads.
  const MAX_DECLARED: int := 8 * 1024 * 1024
}
