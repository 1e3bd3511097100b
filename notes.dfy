/**
 * The note store behind `add_note` and `remove_note`: a JSON file holding a
 * dictionary from a path (relative to the directory of the notes file) to a
 * dictionary from note key to note text. Loading and saving the file are
 * reading and writing the `notes` field of a `NoteFile`; the relative path
 * is an input.
 */
module Notes {
  import opened Wrappers

  /** path -> (key -> note) */
  type NoteMap = map<string, map<string, string>>

  /** The note stored under `path` and `key`, if any. */
  function Lookup(notes: NoteMap, path: string, key: string): Option<string> {
    if path in notes && key in notes[path] then Some(notes[path][key]) else None
  }

  /** The store keeps no path whose notes are all gone. */
  predicate NoEmptyEntries(notes: NoteMap) {
    forall path :: path in notes ==> notes[path] != map[]
  }

  /**
   * The store after `add_note(path, key, note)`: the note is set, a missing
   * path entry is created first, and every other entry is kept.
   */
  function WithNote(notes: NoteMap, path: string, key: string, note: string): (r: NoteMap)
    ensures Lookup(r, path, key) == Some(note)
    ensures forall p, k :: p != path || k != key ==> Lookup(r, p, k) == Lookup(notes, p, k)
    ensures r.Keys == notes.Keys + {path}
    ensures forall p :: p in notes && p != path ==> r[p] == notes[p]
    ensures r[path].Keys == (if path in notes then notes[path].Keys else {}) + {key}
    ensures NoEmptyEntries(notes) ==> NoEmptyEntries(r)
  {
    var inner := if path in notes then notes[path] else map[];
    notes[path := inner[key := note]]
  }

  /**
   * The store after `remove_note(path, key)`: the one note is deleted, and
   * the path entry with it when that leaves it empty; a missing path or key
   * changes nothing.
   */
  function WithoutNote(notes: NoteMap, path: string, key: string): (r: NoteMap)
    ensures Lookup(r, path, key) == None
    ensures forall p, k :: p != path || k != key ==> Lookup(r, p, k) == Lookup(notes, p, k)
    ensures forall p :: p in notes && p != path ==> p in r && r[p] == notes[p]
    ensures Lookup(notes, path, key) == None ==> r == notes
    ensures Lookup(notes, path, key).Some? ==> (path in r <==> notes[path].Keys != {key})
    ensures r.Keys <= notes.Keys
    ensures NoEmptyEntries(notes) ==> NoEmptyEntries(r)
  {
    if path in notes && key in notes[path] then
      var inner := notes[path] - {key};
      assert inner.Keys == notes[path].Keys - {key};
      assert inner == map[] <==> inner.Keys == {};
      if inner == map[] then notes - {path} else notes[path := inner]
    else
      notes
  }

  /** Adding a new note and then removing it gives back the store. */
  lemma RemoveUndoesAdd(notes: NoteMap, path: string, key: string, note: string)
    requires NoEmptyEntries(notes)
    requires Lookup(notes, path, key) == None
    ensures WithoutNote(WithNote(notes, path, key, note), path, key) == notes
  {
    if path in notes {
      RemoveUndoesAddKnownPath(notes, path, key, note);
    } else {
      RemoveUndoesAddNewPath(notes, path, key, note);
    }
  }

  lemma RemoveUndoesAddKnownPath(notes: NoteMap, path: string, key: string, note: string)
    requires path in notes && notes[path] != map[] && key !in notes[path]
    ensures WithoutNote(WithNote(notes, path, key, note), path, key) == notes
  {
    var inner := notes[path];
    var added := notes[path := inner[key := note]];
    assert WithNote(notes, path, key, note) == added;
    assert added[path] - {key} == inner;
    assert WithoutNote(added, path, key) == added[path := inner];
  }

  lemma RemoveUndoesAddNewPath(notes: NoteMap, path: string, key: string, note: string)
    requires path !in notes
    ensures WithoutNote(WithNote(notes, path, key, note), path, key) == notes
  {
    var added := notes[path := map[key := note]];
    assert WithNote(notes, path, key, note) == added;
    assert added[path] - {key} == map[];
    assert WithoutNote(added, path, key) == added - {path};
  }

  /** Adding under a key that already holds a note overwrites it. */
  lemma LastAddWins(notes: NoteMap, path: string, key: string, first: string, second: string)
    ensures WithNote(WithNote(notes, path, key, first), path, key, second)
         == WithNote(notes, path, key, second)
  {
    var once := WithNote(notes, path, key, first);
    assert once[path][key := second] == (if path in notes then notes[path] else map[])[key := second];
  }

  /** The notes file, seen through the dictionary it holds. */
  class NoteFile {
    var notes: NoteMap

    constructor (initial: NoteMap)
      ensures notes == initial
    {
      notes := initial;
    }

    /** `add_note`: load, create the path entry if missing, set the note, save. */
    method AddNote(relPath: string, key: string, note: string)
      modifies this
      ensures notes == WithNote(old(notes), relPath, key, note)
      ensures NoEmptyEntries(old(notes)) ==> NoEmptyEntries(notes)
    {
      var loaded := notes;
      if relPath !in loaded {
        loaded := loaded[relPath := map[]];
      }
      loaded := loaded[relPath := loaded[relPath][key := note]];
      notes := loaded;
    }

    /**
     * `remove_note`: load; when the path holds the key, delete the note,
     * drop the path entry if it became empty and save. `saved` tells whether
     * the file was written.
     */
    method RemoveNote(relPath: string, key: string) returns (saved: bool)
      modifies this
      ensures saved <==> Lookup(old(notes), relPath, key).Some?
      ensures notes == WithoutNote(old(notes), relPath, key)
      ensures NoEmptyEntries(old(notes)) ==> NoEmptyEntries(notes)
    {
      var loaded := notes;
      saved := false;
      if relPath in loaded && key in loaded[relPath] {
        loaded := loaded[relPath := loaded[relPath] - {key}];
        if loaded[relPath] == map[] {
          loaded := loaded - {relPath};
        }
        notes := loaded;
        saved := true;
      }
    }
  }
}
