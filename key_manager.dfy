/**
 * The browser's key vault (frontend/src/utils/keyManager.ts): each file's key lives in
 * `localStorage` under the name `sfs_key_<fileId>`, as the JSON text of a KeyEntry.
 *
 * JSON is not modelled as text: an item is either an entry (standing for the text
 * `JSON.stringify` makes of it, which `JSON.parse` reads back as the same entry) or some
 * other text that was not written by the vault.
 */
module KeyManager {
  import opened Wrappers
  import opened WebStorage
  import opened Bytes
  import Base64

  /** `KeyEntry`; an absent `fileName` is None. */
  datatype KeyEntry = KeyEntry(fileId: string, key: string, fileName: Option<string>, timestamp: int)

  /** The text stored under a name. */
  datatype Item =
    | Entry(entry: KeyEntry)  // the JSON text of an entry
    | Other(text: string)     // any other text

  /** Whether `if (stored)` takes the item: JSON text of an object is never empty. */
  predicate Truthy(item: Item) {
    item.Entry? || item.text != ""
  }

  /** `JSON.parse` of a non-empty text that is not an entry's JSON: it either throws or
      yields a value that is not a KeyEntry, and the model does not say which. */
  datatype VaultError = NotAnEntry(name: string)

  const Prefix: string := "sfs_key_"

  /** `key.startsWith('sfs_key_')`. */
  predicate IsSlot(name: string) {
    Prefix <= name
  }

  /** The file id a slot name stands for. */
  function SlotId(name: string): string
    requires IsSlot(name)
  {
    name[|Prefix|..]
  }

  /** `` `sfs_key_${fileId}` ``: every file id has its own slot, and the id is read back
      from the slot name. */
  function SlotName(fileId: string): (name: string)
    ensures IsSlot(name) && SlotId(name) == fileId
  {
    Prefix + fileId
  }

  /** Every slot name is the slot of the id it stands for. */
  lemma SlotNameOfSlotId(name: string)
    requires IsSlot(name)
    ensures SlotName(SlotId(name)) == name
  {
    assert name == name[..|Prefix|] + name[|Prefix|..];
  }

  /** Two ids share a slot only when they are the same id. */
  lemma SlotNameInjective(a: string, b: string)
    ensures SlotName(a) == SlotName(b) <==> a == b
  {
    if SlotName(a) == SlotName(b) {
      assert a == SlotName(a)[|Prefix|..] == SlotName(b)[|Prefix|..] == b;
    }
  }

  // ---------------------------------------------------------------------------
  // The vault's operations, as functions of the stored items.

  /** What `getKey(fileId)` returns for the stored items: the key of the entry in the
      id's slot, null when the slot is missing or empty. */
  function Lookup(items: map<string, Item>, fileId: string): Result<Option<string>, VaultError> {
    var name := SlotName(fileId);
    if name !in items || !Truthy(items[name]) then Ok(None)
    else match items[name]
      case Entry(e) => Ok(Some(e.key))
      case Other(_) => Err(NotAnEntry(name))
  }

  /** The items after `storeKey` writes an entry: its slot now holds it. */
  function Stored(items: map<string, Item>, e: KeyEntry): map<string, Item> {
    items[SlotName(e.fileId) := Entry(e)]
  }

  /** The items after `deleteKey(fileId)`. */
  function Deleted(items: map<string, Item>, fileId: string): map<string, Item> {
    items - {SlotName(fileId)}
  }

  /** What the vault keeps true when it is the only writer of slots: every slot holds an
      entry whose `fileId` names that slot. */
  ghost predicate VaultInv(items: map<string, Item>) {
    forall name :: name in items && IsSlot(name) ==>
      items[name].Entry? && items[name].entry.fileId == SlotId(name)
  }

  /** What `getAllKeys()` returns for the names in enumeration order: the entry in each
      slot, in order, stopping at the first slot whose text is not an entry. */
  function Listed(names: seq<string>, items: map<string, Item>): Result<seq<KeyEntry>, VaultError>
    decreases |names|
  {
    if names == [] then Ok([])
    else
      match Listed(names[..|names| - 1], items)
      case Err(err) => Err(err)
      case Ok(keys) =>
        var name := names[|names| - 1];
        if !IsSlot(name) || name !in items || !Truthy(items[name]) then Ok(keys)
        else match items[name]
          case Entry(e) => Ok(keys + [e])
          case Other(_) => Err(NotAnEntry(name))
  }

  // ---------------------------------------------------------------------------
  // The vault's operations on localStorage.

  /** `storeKey(fileId, key, fileName)`, with `Date.now()` given as `now`. */
  method StoreKey(storage: LocalStorage<Item>, fileId: string, key: string, fileName: Option<string>, now: int)
    requires storage.Valid()
    modifies storage
    ensures storage.Valid()
    ensures storage.items == Stored(old(storage.items), KeyEntry(fileId, key, fileName, now))
    ensures storage.names ==
      if SlotName(fileId) in old(storage.items) then old(storage.names) else old(storage.names) + [SlotName(fileId)]
  {
    var entry := KeyEntry(fileId, key, fileName, now);
    storage.SetItem(SlotName(fileId), Entry(entry));
  }

  /** `getKey(fileId)`. */
  method GetKey(storage: LocalStorage<Item>, fileId: string) returns (r: Result<Option<string>, VaultError>)
    ensures r == Lookup(storage.items, fileId)
  {
    var stored := storage.GetItem(SlotName(fileId));
    if stored.Some? && Truthy(stored.value) {
      match stored.value
      case Entry(e) => r := Ok(Some(e.key));
      case Other(_) => r := Err(NotAnEntry(SlotName(fileId)));
    } else {
      r := Ok(None);
    }
  }

  /** `deleteKey(fileId)`. */
  method DeleteKey(storage: LocalStorage<Item>, fileId: string)
    requires storage.Valid()
    modifies storage
    ensures storage.Valid()
    ensures storage.items == Deleted(old(storage.items), fileId)
    ensures storage.names == Without(old(storage.names), SlotName(fileId))
  {
    storage.RemoveItem(SlotName(fileId));
  }

  /** `getAllKeys()`: walks `localStorage` by index and collects the entry of every slot. */
  method GetAllKeys(storage: LocalStorage<Item>) returns (r: Result<seq<KeyEntry>, VaultError>)
    requires storage.Valid()
    ensures r == Listed(storage.names, storage.items)
  {
    var keys: seq<KeyEntry> := [];
    var i := 0;
    while i < storage.Length()
      invariant 0 <= i <= |storage.names|
      invariant Listed(storage.names[..i], storage.items) == Ok(keys)
    {
      assert storage.names[..i + 1][..i] == storage.names[..i];
      var name := storage.Key(i);
      if name.Some? && IsSlot(name.value) {
        var stored := storage.GetItem(name.value);
        if stored.Some? && Truthy(stored.value) {
          match stored.value
          case Entry(e) =>
            keys := keys + [e];
          case Other(_) =>
            ListedStaysErr(storage.names, storage.items, i + 1);
            return Err(NotAnEntry(name.value));
        }
      }
      i := i + 1;
    }
    assert storage.names[..i] == storage.names;
    r := Ok(keys);
  }

  // ---------------------------------------------------------------------------
  // Properties of the vault.

  /** After `storeKey(id, k, …)`, `getKey(id)` returns k. */
  lemma LookupStored(items: map<string, Item>, e: KeyEntry)
    ensures Lookup(Stored(items, e), e.fileId) == Ok(Some(e.key))
  {
  }

  /** `storeKey` touches its own slot only: every other id's lookup, and every item,
      other than that slot, is as before. */
  lemma StoredFrame(items: map<string, Item>, e: KeyEntry, other: string)
    requires other != e.fileId
    ensures Lookup(Stored(items, e), other) == Lookup(items, other)
    ensures Stored(items, e) - {SlotName(e.fileId)} == items - {SlotName(e.fileId)}
  {
    SlotNameInjective(other, e.fileId);
  }

  /** A second `storeKey` for the same id replaces the first: the store keeps one entry
      per id, the last one written. */
  lemma StoredTwice(items: map<string, Item>, first: KeyEntry, second: KeyEntry)
    requires first.fileId == second.fileId
    ensures Stored(Stored(items, first), second) == Stored(items, second)
  {
  }

  /** `getKey(id)` returns null when there is no slot for id. */
  lemma LookupMissing(items: map<string, Item>, fileId: string)
    requires SlotName(fileId) !in items
    ensures Lookup(items, fileId) == Ok(None)
  {
  }

  /** After `deleteKey(id)`, `getKey(id)` returns null; deleting again changes nothing,
      and deleting an id that has no slot changes nothing. */
  lemma DeletedProperties(items: map<string, Item>, fileId: string)
    ensures Lookup(Deleted(items, fileId), fileId) == Ok(None)
    ensures Deleted(Deleted(items, fileId), fileId) == Deleted(items, fileId)
    ensures SlotName(fileId) !in items ==> Deleted(items, fileId) == items
  {
  }

  /** `deleteKey` touches its own slot only. */
  lemma DeletedFrame(items: map<string, Item>, fileId: string, other: string)
    requires other != fileId
    ensures Lookup(Deleted(items, fileId), other) == Lookup(items, other)
  {
    SlotNameInjective(other, fileId);
  }

  /** Deleting an id that has no slot leaves the enumeration order as it was, so with
      DeletedProperties `deleteKey` of an absent id changes nothing at all. */
  lemma {:induction false} WithoutAbsent(names: seq<string>, name: string)
    requires name !in names
    ensures Without(names, name) == names
    decreases |names|
  {
    if names != [] {
      WithoutAbsent(names[1..], name);
      assert names == [names[0]] + names[1..];
    }
  }

  /** The vault's own writes keep every slot holding the entry for its id. */
  lemma VaultInvPreserved(items: map<string, Item>, e: KeyEntry, fileId: string)
    requires VaultInv(items)
    ensures VaultInv(Stored(items, e))
    ensures VaultInv(Deleted(items, fileId))
  {
  }

  /** Under the invariant `getKey` never fails, and it finds a key exactly when the id's
      slot holds an entry with that key. */
  lemma LookupUnderInv(items: map<string, Item>, fileId: string)
    requires VaultInv(items)
    ensures Lookup(items, fileId).Ok?
    ensures Lookup(items, fileId).value.Some? <==> SlotName(fileId) in items
    ensures SlotName(fileId) in items ==>
      Lookup(items, fileId).value == Some(items[SlotName(fileId)].entry.key) &&
      items[SlotName(fileId)].entry.fileId == fileId
  {
  }

  /** Once the walk of `getAllKeys` has failed, later names do not change the outcome. */
  lemma {:induction false} ListedStaysErr(names: seq<string>, items: map<string, Item>, i: nat)
    requires i <= |names|
    requires Listed(names[..i], items).Err?
    ensures Listed(names, items) == Listed(names[..i], items)
    decreases |names|
  {
    if i < |names| {
      var init := names[..|names| - 1];
      assert init[..i] == names[..i];
      ListedStaysErr(init, items, i);
    } else {
      assert names[..i] == names;
    }
  }

  /** `getAllKeys` under the invariant: it succeeds, it returns an entry exactly when the
      entry sits in its own slot among the enumerated names, it returns the entry of
      every such slot, and no two returned entries share a `fileId`. */
  lemma {:induction false} ListedEntries(names: seq<string>, items: map<string, Item>)
    requires VaultInv(items) && Distinct(names)
    ensures Listed(names, items).Ok?
    ensures forall e :: e in Listed(names, items).value <==>
      SlotName(e.fileId) in names && SlotName(e.fileId) in items && items[SlotName(e.fileId)] == Entry(e)
    ensures forall name :: name in names && IsSlot(name) && name in items ==>
      items[name].entry in Listed(names, items).value
    ensures forall i, j :: 0 <= i < j < |Listed(names, items).value| ==>
      Listed(names, items).value[i].fileId != Listed(names, items).value[j].fileId
    decreases |names|
  {
    if names != [] {
      var init, name := names[..|names| - 1], names[|names| - 1];
      assert names == init + [name];
      assert Distinct(init);
      ListedEntries(init, items);
      var keys := Listed(init, items).value;
      assert name !in init;
      if IsSlot(name) && name in items {
        var e := items[name].entry;
        SlotNameOfSlotId(name);
        assert SlotName(e.fileId) == name;
        assert forall k :: k in keys ==> SlotName(k.fileId) in init;
        assert forall k :: k in keys ==> k.fileId != e.fileId;
        assert Listed(names, items).value == keys + [e];
      }
    }
  }

  // ---------------------------------------------------------------------------
  // importKey's trim.

  /** The characters `String.prototype.trim` removes: ECMAScript WhiteSpace and
      LineTerminator. */
  predicate IsJsWhitespace(c: char) {
    || c == '\t' || c == '\n' || c == '\U{B}' || c == '\U{C}' || c == '\r' || c == ' '
    || c == '\U{A0}' || c == '\U{1680}' || ('\U{2000}' <= c <= '\U{200A}')
    || c == '\U{2028}' || c == '\U{2029}' || c == '\U{202F}' || c == '\U{205F}'
    || c == '\U{3000}' || c == '\U{FEFF}'
  }

  function TrimStart(s: string): (r: string)
    ensures |r| <= |s| && r == s[|s| - |r|..]
    ensures forall i :: 0 <= i < |s| - |r| ==> IsJsWhitespace(s[i])
    ensures r == [] || !IsJsWhitespace(r[0])
    decreases |s|
  {
    if s != [] && IsJsWhitespace(s[0]) then TrimStart(s[1..]) else s
  }

  function TrimEnd(s: string): (r: string)
    ensures |r| <= |s| && r == s[..|r|]
    ensures forall i :: |r| <= i < |s| ==> IsJsWhitespace(s[i])
    ensures r == [] || !IsJsWhitespace(r[|r| - 1])
    decreases |s|
  {
    if s != [] && IsJsWhitespace(s[|s| - 1]) then TrimEnd(s[..|s| - 1]) else s
  }

  /** `key.trim()`, the value `importKey` resolves with: the text from the first
      character that is not whitespace to the last one, and nothing when there is none
      (TrimIsSlice). */
  function Trim(s: string): (r: string)
    ensures |r| <= |s|
    ensures r == [] || (!IsJsWhitespace(r[0]) && !IsJsWhitespace(r[|r| - 1]))
  {
    TrimEnd(TrimStart(s))
  }

  /** What `trim()` cuts off is whitespace at both ends and nothing else: the result is
      the slice of the text that starts after the leading whitespace. */
  lemma TrimIsSlice(s: string)
    ensures var k := |s| - |TrimStart(s)|;
      && k + |Trim(s)| <= |s| && Trim(s) == s[k..k + |Trim(s)|]
      && (forall i :: 0 <= i < k ==> IsJsWhitespace(s[i]))
      && (forall i :: k + |Trim(s)| <= i < |s| ==> IsJsWhitespace(s[i]))
  {
    var t := TrimStart(s);
    CutSlice(s, t, TrimEnd(t), IsJsWhitespace);
  }

  /** Cutting characters with property p off the front of a text, and then more off
      the back of what is left, leaves a slice of the text with only p-characters
      around it. */
  lemma CutSlice(s: string, t: string, r: string, p: char -> bool)
    requires |t| <= |s| && t == s[|s| - |t|..]
    requires |r| <= |t| && r == t[..|r|]
    requires forall i :: 0 <= i < |s| - |t| ==> p(s[i])
    requires forall i :: |r| <= i < |t| ==> p(t[i])
    ensures var k := |s| - |t|;
      && k + |r| <= |s| && r == s[k..k + |r|]
      && (forall i :: 0 <= i < k ==> p(s[i]))
      && (forall i :: k + |r| <= i < |s| ==> p(s[i]))
  {
    var k := |s| - |t|;
    forall i | 0 <= i < |r|
      ensures r[i] == s[k + i]
    {
      assert r[i] == t[i];
      assert t[i] == s[k + i];
    }
    forall i | k + |r| <= i < |s|
      ensures p(s[i])
    {
      assert s[i] == t[i - k];
    }
  }

  /** Text that neither starts nor ends with whitespace survives trimming whatever
      whitespace surrounds it. */
  lemma {:induction false} TrimSurrounded(before: string, text: string, after: string)
    requires forall i :: 0 <= i < |before| ==> IsJsWhitespace(before[i])
    requires forall i :: 0 <= i < |after| ==> IsJsWhitespace(after[i])
    requires text == [] || (!IsJsWhitespace(text[0]) && !IsJsWhitespace(text[|text| - 1]))
    ensures Trim(before + text + after) == text
  {
    if text == [] {
      var ws := before + after;
      assert forall i :: 0 <= i < |ws| ==> IsJsWhitespace(ws[i]);
      assert before + text + after == ws + [];
      TrimStartOf(ws, []);
    } else {
      assert before + text + after == before + (text + after);
      assert (text + after)[0] == text[0];
      TrimStartOf(before, text + after);
      TrimEndOf(text, after);
    }
  }

  lemma {:induction false} TrimStartOf(ws: string, s: string)
    requires forall i :: 0 <= i < |ws| ==> IsJsWhitespace(ws[i])
    requires s == [] || !IsJsWhitespace(s[0])
    ensures TrimStart(ws + s) == s
    decreases |ws|
  {
    if ws != [] {
      assert (ws + s)[1..] == ws[1..] + s;
      TrimStartOf(ws[1..], s);
    } else {
      assert ws + s == s;
    }
  }

  lemma {:induction false} TrimEndOf(s: string, ws: string)
    requires forall i :: 0 <= i < |ws| ==> IsJsWhitespace(ws[i])
    requires s == [] || !IsJsWhitespace(s[|s| - 1])
    ensures TrimEnd(s + ws) == s
    decreases |ws|
  {
    if ws != [] {
      var init := ws[..|ws| - 1];
      assert (s + ws)[..|s + ws| - 1] == s + init;
      TrimEndOf(s, init);
    } else {
      assert s + ws == s;
    }
  }

  /** A Base64 key written out by `exportKey` and read back by `importKey` comes back
      unchanged, even if the file gained whitespace around it on the way. */
  lemma ImportExportedKey(rawKey: seq<byte>, before: string, after: string)
    requires forall i :: 0 <= i < |before| ==> IsJsWhitespace(before[i])
    requires forall i :: 0 <= i < |after| ==> IsJsWhitespace(after[i])
    ensures Trim(before + Base64.Encode(rawKey) + after) == Base64.Encode(rawKey)
  {
    var text := Base64.Encode(rawKey);
    assert forall i :: 0 <= i < |text| ==> !IsJsWhitespace(text[i]);
    TrimSurrounded(before, text, after);
  }
}
