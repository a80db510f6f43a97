/**
 * The Interaction Store: the set of user ids that have already been
 * welcomed, and the JSON file that mirrors it.
 */
module InteractionStore {

  /**
   * What reading and parsing the storage file yields at startup: no file,
   * content that does not parse, or an array of user ids.
   */
  datatype StoredFile = Missing | Corrupt | Stored(ids: seq<string>)

  /**
   * How one `writeFileSync` of the whole store turns out: written, failed
   * before the file was opened (the file is untouched), or failed after
   * opening truncated it (the file is left empty or cut short, which never
   * parses as a JSON array).
   */
  datatype WriteResult = Written | OpenFailed | WriteFailed

  /** The file after writing `ids` to it with result `w`. */
  function FileAfterWrite(file: StoredFile, ids: seq<string>, w: WriteResult): StoredFile {
    match w
    case Written => Stored(ids)
    case OpenFailed => file
    case WriteFailed => Corrupt
  }

  predicate Distinct(s: seq<string>) {
    forall i, j :: 0 <= i < j < |s| ==> s[i] != s[j]
  }

  /**
   * `new Set(array)` read back in iteration order: the elements of the
   * array in order, each one kept at its first occurrence only.
   */
  function FromArray(a: seq<string>): (r: seq<string>)
    ensures Distinct(r)
    ensures forall x :: x in r <==> x in a
    ensures |r| <= |a|
  {
    if a == [] then []
    else
      var front := FromArray(a[..|a| - 1]);
      assert a == a[..|a| - 1] + [a[|a| - 1]];
      if a[|a| - 1] in front then front else front + [a[|a| - 1]]
  }

  /** An array without repeated ids becomes a set that iterates as that same array. */
  lemma {:induction false} FromDistinctArray(a: seq<string>)
    requires Distinct(a)
    ensures FromArray(a) == a
  {
    if a != [] {
      var n := |a| - 1;
      FromDistinctArray(a[..n]);
      assert a[n] !in a[..n];
      assert a == a[..n] + [a[n]];
    }
  }

  /** The ids the store starts with, given what the storage file held. */
  function LoadedIds(f: StoredFile): (r: seq<string>)
    ensures Distinct(r)
    ensures f.Stored? ==> forall x :: x in r <==> x in f.ids
    ensures !f.Stored? ==> r == []
  {
    if f.Stored? then FromArray(f.ids) else []
  }

  /** Saving a store and loading the file back gives the same store, order included. */
  lemma SaveLoadRoundTrip(ids: seq<string>)
    requires Distinct(ids)
    ensures LoadedIds(Stored(ids)) == ids
  {
    FromDistinctArray(ids);
  }

  /**
   * The module-level `userInteractions` Set together with the storage file.
   * A JavaScript Set iterates in insertion order, so `ids` holds the members
   * in the order they were added and `Array.from` of the Set is `ids` itself.
   */
  class Store {
    var ids: seq<string>
    var file: StoredFile

    ghost predicate Valid()
      reads this
    {
      Distinct(ids)
    }

    /** Startup: read and parse the file; if that fails, start empty and write `[]`. */
    constructor Load(onDisk: StoredFile)
      ensures Valid()
      ensures ids == LoadedIds(onDisk)
      ensures file == if onDisk.Stored? then onDisk else Stored([])
    {
      if onDisk.Stored? {
        ids := FromArray(onDisk.ids);
        file := onDisk;
      } else {
        ids := [];
        file := Stored([]);
      }
    }

    /** `userInteractions.add(id)`: appends the id unless it is already a member. */
    method Add(id: string)
      requires Valid()
      modifies this`ids
      ensures Valid()
      ensures ids == if id in old(ids) then old(ids) else old(ids) + [id]
    {
      if id !in ids {
        ids := ids + [id];
      }
    }

    /**
     * `saveUserInteractions()`: overwrites the file with the whole store.
     * `outcome` says how `writeFileSync` turns out; `saved == false` stands
     * for it throwing.
     */
    method Save(outcome: WriteResult) returns (saved: bool)
      modifies this`file
      ensures saved <==> outcome == Written
      ensures outcome == Written ==> file == Stored(ids)
      ensures outcome == OpenFailed ==> file == old(file)
      ensures outcome == WriteFailed ==> file == Corrupt && LoadedIds(file) == []
    {
      saved := outcome == Written;
      file := FileAfterWrite(file, ids, outcome);
    }
  }
}
