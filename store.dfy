/** The application's record store: the ordered list of entries held as component
    state, and the copy of it kept in the browser's persistent storage under the
    key "entries". */
module RecordStore {
  import opened Entries

  /** `s.filter((_, i) => i !== index)`: every element except the one at position
      `index`, in order. */
  function RemoveAt<T>(s: seq<T>, index: int): (r: seq<T>)
    ensures 0 <= index < |s| ==> r == s[..index] + s[index + 1..]
    ensures !(0 <= index < |s|) ==> r == s
  {
    if s == [] then []
    else (if index == 0 then [] else [s[0]]) + RemoveAt(s[1..], index - 1)
  }

  /** `s.map((x, i) => i === index ? y : x)`: position `index` replaced by `y`. */
  function ReplaceAt<T>(s: seq<T>, index: int, y: T): (r: seq<T>)
    ensures |r| == |s|
    ensures forall k :: 0 <= k < |s| ==> r[k] == if k == index then y else s[k]
    ensures !(0 <= index < |s|) ==> r == s
  {
    if s == [] then []
    else [if index == 0 then y else s[0]] + ReplaceAt(s[1..], index - 1, y)
  }

  /** Deleting position i shortens the list by one and moves every later entry
      down one place. */
  lemma RemoveAtShifts<T>(s: seq<T>, index: int)
    requires 0 <= index < |s|
    ensures |RemoveAt(s, index)| == |s| - 1
    ensures forall k :: 0 <= k < index ==> RemoveAt(s, index)[k] == s[k]
    ensures forall k :: index <= k < |s| - 1 ==> RemoveAt(s, index)[k] == s[k + 1]
  {
  }

  class Store {
    /** The `entries` state of the application component. */
    var entries: seq<Entry>
    /** The persisted copy; `None` while nothing has been written under the key. */
    var stored: Option<seq<Entry>>

    /** Whatever has been persisted is the list held in memory. */
    ghost predicate Valid()
      reads this
    {
      stored.Some? ==> stored.value == entries
    }

    /** Initial load: the persisted list if there is one, otherwise the empty list. */
    constructor (persisted: Option<seq<Entry>>)
      ensures Valid()
      ensures stored == persisted
      ensures entries == if persisted.Some? then persisted.value else []
    {
      entries := if persisted.Some? then persisted.value else [];
      stored := persisted;
    }

    /** `addEntry`: append, then overwrite the persisted copy. */
    method Add(e: Entry)
      modifies this
      ensures Valid()
      ensures entries == old(entries) + [e]
      ensures stored == Some(entries)
    {
      entries := entries + [e];
      stored := Some(entries);
    }

    /** `deleteEntry`: drop position `index` (no change when it is out of range),
        then overwrite the persisted copy. */
    method Delete(index: int)
      modifies this
      ensures Valid()
      ensures entries == RemoveAt(old(entries), index)
      ensures stored == Some(entries)
    {
      entries := RemoveAt(entries, index);
      stored := Some(entries);
    }

    /** `editEntry`: replace position `index` (no change when it is out of range),
        then overwrite the persisted copy. */
    method Edit(index: int, e: Entry)
      modifies this
      ensures Valid()
      ensures entries == ReplaceAt(old(entries), index, e)
      ensures stored == Some(entries)
    {
      entries := ReplaceAt(entries, index, e);
      stored := Some(entries);
    }
  }
}
