/**
 * The automation marker file `tila.json`: written by the checker after a
 * successful start (`_kirjoita_tila_json`), removed after a successful stop
 * or on quiet cleanup (`_poista_tila_json`), and read by the status page
 * (`sauna_status` in main.py). File-system errors are swallowed by every
 * writer and reader.
 */
module Marker {
  import opened Wrappers

  /** The JSON scalars the two marker keys can hold. */
  datatype JsonValue = JNull | JBool(b: bool) | JInt(i: int) | JStr(s: string)

  /** The two keys a JSON object in the file may carry. */
  datatype MarkerDoc = MarkerDoc(automatic: Option<JsonValue>, timestamp: Option<JsonValue>)

  /** The file: missing, present but not a readable JSON object, or a JSON object. */
  datatype FileState = Absent | Unreadable | Stored(doc: MarkerDoc)

  /** Python truthiness of a JSON value (`bool(...)`). */
  predicate Truthy(v: JsonValue) {
    match v
    case JNull => false
    case JBool(b) => b
    case JInt(i) => i != 0
    case JStr(s) => s != ""
  }

  /** The document `_kirjoita_tila_json` writes: the flag and the formatted UTC write time. */
  function WrittenDoc(automatic: bool, stamp: string): MarkerDoc {
    MarkerDoc(Some(JBool(automatic)), Some(JStr(stamp)))
  }

  /** The file after a write that `ok` says the file system allowed; a failed write is swallowed. */
  function AfterWrite(f: FileState, automatic: bool, stamp: string, ok: bool): FileState {
    if ok then Stored(WrittenDoc(automatic, stamp)) else f
  }

  /** The file after a removal: an absent file stays absent, a refused removal is swallowed. */
  function AfterRemove(f: FileState, ok: bool): FileState {
    if f != Absent && ok then Absent else f
  }

  /** What the status page reads from the file. */
  datatype MarkerView = MarkerView(automatic: bool, timestamp: Option<JsonValue>)

  /**
   * The status page's read: a missing or unreadable file gives
   * `automatic = false` and no timestamp; a missing key defaults
   * `automatic` to false and the timestamp to none. A stored
   * `"timestamp": null` reads as `Some(JNull)`, which Python also gives as
   * `None`; both are the same `null` in the status page's JSON.
   */
  function ReadMarker(f: FileState): (v: MarkerView)
    ensures f.Stored? ==> v.timestamp == f.doc.timestamp
    ensures f.Stored? ==> (v.automatic <==> f.doc.automatic.Some? && Truthy(f.doc.automatic.value))
    ensures !f.Stored? ==> v == MarkerView(false, None)
  {
    match f
    case Stored(doc) => MarkerView(Truthy(doc.automatic.GetOr(JBool(false))), doc.timestamp)
    case _ => MarkerView(false, None)
  }

  /** After a successful write the file reads back as written; after a successful removal it reads as no marker. */
  lemma MarkerRoundTrip(f: FileState, automatic: bool, stamp: string)
    ensures ReadMarker(AfterWrite(f, automatic, stamp, true)) == MarkerView(automatic, Some(JStr(stamp)))
    ensures ReadMarker(AfterRemove(f, true)) == MarkerView(false, None)
  {
  }

  /** The marker file as the checker's run sees it: one piece of state it overwrites or removes. */
  class MarkerFile {
    var contents: FileState

    constructor (initial: FileState)
      ensures contents == initial
    {
      contents := initial;
    }

    /** `_kirjoita_tila_json(automaattinen)`: `stamp` is the write time, `ok` whether the write goes through. */
    method Write(automatic: bool, stamp: string, ok: bool)
      modifies this
      ensures contents == AfterWrite(old(contents), automatic, stamp, ok)
      ensures ok ==> ReadMarker(contents) == MarkerView(automatic, Some(JStr(stamp)))
      ensures !ok ==> contents == old(contents)
    {
      if ok {
        contents := Stored(WrittenDoc(automatic, stamp));
      }
    }

    /** `_poista_tila_json(silent)`: remove the file if it exists; `ok` whether the removal goes through. */
    method Remove(ok: bool)
      modifies this
      ensures contents == AfterRemove(old(contents), ok)
      ensures old(contents) == Absent ==> contents == Absent
      ensures ok ==> ReadMarker(contents) == MarkerView(false, None)
    {
      if contents != Absent {
        if ok {
          contents := Absent;
        }
      }
    }
  }
}
