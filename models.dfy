/**
 * The playlist record types: `M3U`, whose `entries` array the scanner
 * pushes onto, and `M3UEntry`, a playable item with its `src`. Both
 * constructors first set a default and then copy the fields of an optional
 * partial value over it with `Object.assign`.
 */
module Models {
  import opened Wrappers

  /** A JavaScript string-typed field that may also hold `undefined`. */
  datatype MaybeString = Undefined | Defined(value: string)

  /** One playlist entry; its `src` is never changed after construction. */
  datatype M3UEntry = M3UEntry(src: MaybeString)

  /**
   * `Partial<M3UEntry>`: `None` for a key the object does not have,
   * `Some(v)` for a key it has, even when `v` is `undefined`.
   */
  datatype PartialM3UEntry = PartialM3UEntry(src: Option<MaybeString>)

  /** `Partial<M3U>`: the `entries` key, if present. */
  datatype PartialM3U = PartialM3U(entries: Option<seq<M3UEntry>>)

  /**
   * `new M3UEntry(value)`: `src` starts as the empty string and is replaced
   * by the value's `src` when the value is given and has that key.
   */
  function NewM3UEntry(value: Option<PartialM3UEntry>): (e: M3UEntry)
    ensures value.None? ==> e.src == Defined("")
    ensures value.Some? && value.value.src.None? ==> e.src == Defined("")
    ensures value.Some? && value.value.src.Some? ==> e.src == value.value.src.value
  {
    var e := M3UEntry(Defined(""));
    match value
    case None => e
    case Some(v) => if v.src.Some? then e.(src := v.src.value) else e
  }

  /** A playlist: the ordered entries of one parse. */
  class M3U {
    var entries: seq<M3UEntry>

    /**
     * `new M3U(value)`: `entries` starts empty and is replaced by the
     * value's `entries` when the value is given and has that key.
     */
    constructor (value: Option<PartialM3U>)
      ensures value.None? ==> entries == []
      ensures value.Some? && value.value.entries.None? ==> entries == []
      ensures value.Some? && value.value.entries.Some? ==> entries == value.value.entries.value
    {
      entries := [];
      if value.Some? {
        if value.value.entries.Some? {
          entries := value.value.entries.value;
        }
      }
    }
  }
}
