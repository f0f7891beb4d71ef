/** The page's key list in browser storage, and the two handlers that use
    it: generating a key and listing the keys (script.js). */
module Store {
  import opened Wrappers
  import KeyFormat
  import Duration
  import opened Records

  /** The stored document, `{ keys: [...] }`. */
  datatype KeysData = KeysData(keys: seq<KeyRecord>)

  /** The one localStorage item the page uses (`mod_keys`). `item` is `None`
      while nothing has been saved. The JSON text is not modelled: the item
      holds the document itself. */
  class LocalStore {
    var item: Option<KeysData>

    constructor ()
      ensures item == None
    {
      item := None;
    }

    /** The key list `loadKeysLocally` returns: the saved list, or the empty
        list when nothing is saved. */
    function Keys(): seq<KeyRecord>
      reads this
    {
      if item.Some? then item.value.keys else []
    }

    /** `saveKeysLocally`: the item is replaced by the document. */
    method SaveKeysLocally(data: KeysData)
      modifies this
      ensures item == Some(data)
    {
      item := Some(data);
    }

    /** `loadKeysLocally`: the saved document, or `{ keys: [] }` when absent. */
    method LoadKeysLocally() returns (data: KeysData)
      ensures item.None? ==> data.keys == []
      ensures item.Some? ==> data == item.value
      ensures data.keys == Keys()
    {
      if item.Some? {
        data := item.value;
      } else {
        data := KeysData([]);
      }
    }
  }

  /** Saving and then loading gives back the saved document. */
  method SaveThenLoad(store: LocalStore, data: KeysData) returns (back: KeysData)
    modifies store
    ensures back == data
  {
    store.SaveKeysLocally(data);
    back := store.LoadKeysLocally();
  }

  /** What `displayKeys` puts in the list container: a placeholder when there
      are no keys, otherwise one card per record in stored order. */
  datatype Listing = NoKeys | Cards(rows: seq<Row>)

  /** `displayKeys` at clock reading `now`: the stored records, each with the
      status its expiry and use give it at `now`. */
  method DisplayKeys(store: LocalStore, now: int) returns (listing: Listing)
    ensures listing == NoKeys <==> store.Keys() == []
    ensures listing.Cards? ==> |listing.rows| == |store.Keys()|
    ensures listing.Cards? ==> forall i :: 0 <= i < |listing.rows| ==>
      listing.rows[i] == RowOf(now, store.Keys()[i])
  {
    var keysData := store.LoadKeysLocally();
    if |keysData.keys| == 0 {
      return NoKeys;
    }
    var rows: seq<Row> := [];
    for i := 0 to |keysData.keys|
      invariant |rows| == i
      invariant forall k :: 0 <= k < i ==> rows[k] == RowOf(now, keysData.keys[k])
    {
      rows := rows + [RowOf(now, keysData.keys[i])];
    }
    listing := Cards(rows);
  }

  /** The click handler of the generate button. `duration` is the selected
      number of minutes, `now` the clock reading the record is stamped with,
      `picks` the sixteen random alphabet indices, and `shownAt` the clock
      reading of the `displayKeys` call that ends the handler. The new record
      goes at the end of the stored list; nothing else in the list changes and
      keys are not checked for uniqueness. `expiryText` is the duration label
      of the result panel; `listing` is the refreshed key list. */
  method OnGenerate(store: LocalStore, duration: int, now: int, picks: seq<int>, shownAt: int)
    returns (newKey: KeyRecord, expiryText: string, listing: Listing)
    requires KeyFormat.ValidPicks(picks)
    modifies store
    ensures store.item.Some?
    ensures store.Keys() == old(store.Keys()) + [newKey]
    ensures newKey == NewKeyRecord(KeyFormat.KeyOf(picks), now, duration)
    ensures KeyFormat.WellFormedKey(newKey.key)
    ensures newKey.createdAt == now && newKey.expiresAt == now + duration * MillisPerMinute
    ensures !newKey.used && newKey.hwid == None && newKey.usedAt == None
    ensures expiryText == Duration.DurationText(duration)
    ensures listing.Cards? && |listing.rows| == |store.Keys()|
    ensures forall i :: 0 <= i < |listing.rows| ==> listing.rows[i] == RowOf(shownAt, store.Keys()[i])
    ensures listing.rows[|listing.rows| - 1].statusText ==
      if shownAt <= now + duration * MillisPerMinute then "Активен" else "Истек"
  {
    var key := KeyFormat.GenerateKey(picks);
    var expiresAt := now + duration * MillisPerMinute;
    newKey := KeyRecord(key, now, expiresAt, duration, None, false, None);
    var keysData := store.LoadKeysLocally();
    keysData := keysData.(keys := keysData.keys + [newKey]);
    store.SaveKeysLocally(keysData);
    expiryText := Duration.DurationText(duration);
    listing := DisplayKeys(store, shownAt);
    NewKeyRecordLifetime(key, now, duration, shownAt);
  }
}
