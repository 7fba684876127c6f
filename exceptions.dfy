/**
 * The three exception classes of the service, as one sum type. Each carries
 * the text that the Java constructor passes to RuntimeException.
 */
module Exceptions {

  datatype Failure =
    | ShortlinkGeneration(message: string)
    | PasteNotFound(shortlink: string)
    | PasteExpired(shortlink: string)

  /** The exception's message, as built by its constructor. */
  function Message(f: Failure): (m: string)
    ensures f.ShortlinkGeneration? ==> m == f.message
    ensures !f.ShortlinkGeneration? ==> |m| >= |f.shortlink| && m[|m| - |f.shortlink|..] == f.shortlink
  {
    match f
    case ShortlinkGeneration(message) => message
    case PasteNotFound(shortlink) => "Paste not found with shortlink: " + shortlink
    case PasteExpired(shortlink) => "Paste expired with shortlink: " + shortlink
  }

  /**
   * The message of a not-found or expired exception tells which of the two
   * it is and for which shortlink.
   */
  lemma MessageIdentifiesPaste(f: Failure, g: Failure)
    requires !f.ShortlinkGeneration? && !g.ShortlinkGeneration?
    requires Message(f) == Message(g)
    ensures f == g
  {
    var m := Message(f);
    assert m[6] == if f.PasteNotFound? then 'n' else 'e';
    assert Message(g)[6] == if g.PasteNotFound? then 'n' else 'e';
    var n := if f.PasteNotFound? then 32 else 30;
    assert m[n..] == f.shortlink;
    assert Message(g)[n..] == g.shortlink;
  }
}
