/** The browser's `localStorage`, shared by the session hook and the
    registration form: a map from string keys to stored values. */
module BrowserStorage {
  import opened Wrappers
  import opened Types

  /** A stored value: a serialised user (`JSON.stringify(userData)`) or plain text. */
  datatype Stored = StoredUser(user: User) | StoredText(text: string)

  class LocalStorage {
    var entries: map<string, Stored>

    constructor (initial: map<string, Stored>)
      ensures entries == initial
    {
      entries := initial;
    }

    /** `getItem`: the value under the key, or nothing. */
    function GetItem(key: string): (r: Option<Stored>)
      reads this
      ensures r.Some? <==> key in entries
      ensures r.Some? ==> r.value == entries[key]
    {
      if key in entries then Some(entries[key]) else None
    }

    /** `setItem`: this key now holds the value; no other key changes. */
    method SetItem(key: string, value: Stored)
      modifies this
      ensures entries == old(entries)[key := value]
    {
      entries := entries[key := value];
    }

    /** `removeItem`: this key is gone; no other key changes. */
    method RemoveItem(key: string)
      modifies this
      ensures entries == old(entries) - {key}
    {
      entries := entries - {key};
    }
  }
}
