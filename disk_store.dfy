/**
 * The disk store under the cache, seen only through the calls the cache makes: a map from key
 * to two text slots (0: the entry's metadata, 1: the response body), opened for change one key
 * at a time by an editor that ends in a commit or an abort.
 */
module DiskStore {
  import opened Wrappers

  /** What a key holds once an edit of it has been committed. */
  datatype Slots = Slots(metadata: string, body: string)

  /** Slot 0 of an entry holds the metadata, slot 1 the body. */
  const MetadataSlot: nat := 0
  const BodySlot: nat := 1

  datatype EditorState = Open | Committed | Aborted

  /** The slots an edit ends up with: what it wrote, and for the rest what was committed before. */
  function Completed(metadata: Option<string>, body: Option<string>, previous: Option<Slots>): (r: Option<Slots>)
    ensures r.Some? <==> (metadata.Some? || previous.Some?) && (body.Some? || previous.Some?)
    ensures r.Some? && metadata.Some? ==> r.value.metadata == metadata.value
    ensures r.Some? && body.Some? ==> r.value.body == body.value
  {
    if metadata.Some? && body.Some? then Some(Slots(metadata.value, body.value))
    else if previous.None? then None
    else Some(Slots(metadata.GetOr(previous.value.metadata), body.GetOr(previous.value.body)))
  }

  class Store {
    /** The committed entries. */
    var entries: map<string, Slots>
    /** The keys that have an editor open. */
    var editing: set<string>
    /** Whether the disk accepts writes; a write to a disk that does not is an IOException. */
    var writable: bool

    constructor (writable: bool)
      ensures entries == map[] && editing == {} && this.writable == writable
    {
      entries := map[];
      editing := {};
      this.writable := writable;
    }

    /** A snapshot of what key holds, or None on a miss. */
    function Get(key: string): (r: Option<Slots>)
      reads this
      ensures r.Some? <==> key in entries
      ensures r.Some? ==> r.value == entries[key]
    {
      if key in entries then Some(entries[key]) else None
    }

    /** edit(key): null while another editor has the key, else a fresh open editor that holds it. */
    method Edit(key: string) returns (editor: Editor?)
      modifies this
      ensures key in old(editing) ==> editor == null && editing == old(editing)
      ensures key !in old(editing) ==>
                && editor != null && fresh(editor)
                && editor.store == this && editor.key == key && editor.state == Open
                && editor.metadata.None? && editor.body.None?
                && editing == old(editing) + {key}
      ensures entries == old(entries) && writable == old(writable)
    {
      if key in editing {
        return null;
      }
      editor := new Editor(this, key);
      editing := editing + {key};
    }

    /** remove(key): drops the entry unless an editor holds the key; reports whether it dropped one. */
    method Remove(key: string) returns (removed: bool)
      modifies this
      ensures removed <==> key in old(entries) && key !in old(editing)
      ensures entries == if key in old(editing) then old(entries) else old(entries) - {key}
      ensures editing == old(editing) && writable == old(writable)
    {
      if key in editing || key !in entries {
        return false;
      }
      entries := entries - {key};
      removed := true;
    }
  }

  class Editor {
    const store: Store
    const key: string
    /** The text written to slot 0 and slot 1 so far by this edit. */
    var metadata: Option<string>
    var body: Option<string>
    var state: EditorState

    constructor (store: Store, key: string)
      ensures this.store == store && this.key == key
      ensures metadata.None? && body.None? && state == Open
    {
      this.store := store;
      this.key := key;
      metadata := None;
      body := None;
      state := Open;
    }

    /** Write the whole text of one slot; on a disk that refuses writes nothing changes. */
    method Write(slot: nat, text: string) returns (ok: bool)
      requires state == Open && slot < 2
      modifies this
      ensures ok == store.writable
      ensures ok && slot == MetadataSlot ==> metadata == Some(text) && body == old(body)
      ensures ok && slot == BodySlot ==> body == Some(text) && metadata == old(metadata)
      ensures !ok ==> metadata == old(metadata) && body == old(body)
      ensures state == Open
    {
      if !store.writable {
        return false;
      }
      if slot == MetadataSlot {
        metadata := Some(text);
      } else {
        body := Some(text);
      }
      ok := true;
    }

    /**
     * commit(): the written slots replace the committed ones and the key is free again. A new
     * entry with a slot left unwritten is dropped instead, and ok is false (the store throws).
     */
    method Commit() returns (ok: bool)
      requires state == Open
      modifies this, store
      ensures ok <==> Completed(metadata, body, old(store.Get(key))).Some?
      ensures store.entries == match Completed(metadata, body, old(store.Get(key)))
                               case Some(slots) => old(store.entries)[key := slots]
                               case None => old(store.entries)
      ensures store.editing == old(store.editing) - {key} && store.writable == old(store.writable)
      ensures state == (if ok then Committed else Aborted)
      ensures metadata == old(metadata) && body == old(body)
    {
      var completed := Completed(metadata, body, store.Get(key));
      if completed.Some? {
        store.entries := store.entries[key := completed.value];
        state := Committed;
        ok := true;
      } else {
        state := Aborted;
        ok := false;
      }
      store.editing := store.editing - {key};
    }

    /** abort(): the written slots are thrown away and the key is free again. */
    method Abort()
      requires state == Open
      modifies this, store
      ensures store.entries == old(store.entries) && store.writable == old(store.writable)
      ensures store.editing == old(store.editing) - {key}
      ensures state == Aborted && metadata == old(metadata) && body == old(body)
    {
      store.editing := store.editing - {key};
      state := Aborted;
    }
  }
}
