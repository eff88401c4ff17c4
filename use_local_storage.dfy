/** useLocalStorage.ts: a value kept in memory and mirrored into the
    browser's localStorage or sessionStorage under one key.

    JSON is abstracted as a codec: a serializer, and a parser that answers
    None where JSON.parse throws. A store object is a map from keys to
    strings that the binding updates in place. Whether reading the store
    or writing to it throws is an input to the operation concerned. */
module UseLocalStorage {
  import opened Wrappers

  datatype StorageType = LocalStorage | SessionStorage

  /** JSON.stringify and JSON.parse for values of type T. */
  datatype Codec<!T> = Codec(serialize: T -> string, parse: string -> Option<T>)

  /** The round trip the binding relies on: serialized text is never empty
      (JSON text never is) and parses back to the value. */
  ghost predicate Lawful<T(!new)>(c: Codec<T>) {
    forall v :: c.serialize(v) != "" && c.parse(c.serialize(v)) == Some(v)
  }

  /** `getItem`: the stored string, or None (JavaScript's null) when the key
      is absent. */
  function GetItem(entries: map<string, string>, key: string): (item: Option<string>)
    ensures item.Some? <==> key in entries
    ensures item.Some? ==> item.value == entries[key]
  {
    if key in entries then Some(entries[key]) else None
  }

  /** JavaScript truthiness of a string that may be null: null and the
      empty string are false. */
  predicate Truthy(item: Option<string>) {
    item.Some? && item.value != ""
  }

  /** The lazy initial state: the parsed entry when reading succeeds, the
      entry is present and non-empty, and it parses; otherwise
      `initialValue`. */
  function InitialValue<T>(item: Option<string>, readFails: bool, codec: Codec<T>, initialValue: T): (v: T)
    ensures v == initialValue || (Truthy(item) && codec.parse(item.value) == Some(v))
  {
    if readFails || !Truthy(item) then initialValue
    else match codec.parse(item.value)
      case Some(parsed) => parsed
      case None => initialValue
  }

  /** A readable, non-empty, parseable entry wins over `initialValue`. */
  lemma InitialValuePrefersStored<T>(item: Option<string>, codec: Codec<T>, initialValue: T)
    requires Truthy(item) && codec.parse(item.value).Some?
    ensures InitialValue(item, false, codec, initialValue) == codec.parse(item.value).value
  {
  }

  /** A failed read, a missing entry, an empty string or an unparseable
      entry all give `initialValue`. */
  lemma InitialValueFallsBack<T>(item: Option<string>, readFails: bool, codec: Codec<T>, initialValue: T)
    requires readFails || item == None || item == Some("") || (item.Some? && codec.parse(item.value) == None)
    ensures InitialValue(item, readFails, codec, initialValue) == initialValue
  {
  }

  /** A binding created after a successful write of `v` under its key
      starts at `v`, whatever its `initialValue`. */
  lemma ReadAfterWrite<T(!new)>(entries: map<string, string>, key: string, codec: Codec<T>, v: T, initialValue: T)
    requires Lawful(codec)
    ensures InitialValue(GetItem(entries[key := codec.serialize(v)], key), false, codec, initialValue) == v
  {
  }

  /** The argument of `setValue`: a value, or an updater applied to the
      current value (None where the updater throws). */
  datatype SetArg<!T> = Literal(value: T) | Updater(apply: T -> Option<T>)

  /** The value `setValue` stores: the updater's result for a function,
      the value itself otherwise; None when the updater throws. */
  function ValueToStore<T>(arg: SetArg<T>, current: T): (r: Option<T>)
    ensures arg.Literal? ==> r == Some(arg.value)
    ensures arg.Updater? ==> r == arg.apply(current)
  {
    match arg
    case Literal(v) => Some(v)
    case Updater(f) => f(current)
  }

  /** A `storage` event from another browsing context; `key` is null when
      the whole store was cleared, `newValue` when the key was removed. */
  datatype StorageEvent = StorageEvent(key: Option<string>, newValue: Option<string>)

  /** What the storage listener makes of the value: the parsed new value
      for an event on this key with a non-empty new value; the current
      value otherwise, and also when parsing throws (the exception leaves
      the handler before the state is set). */
  function AfterStorageEvent<T>(key: string, codec: Codec<T>, current: T, e: StorageEvent): (v: T)
    ensures v == current || (e.key == Some(key) && Truthy(e.newValue) && codec.parse(e.newValue.value) == Some(v))
    ensures e.key == Some(key) && Truthy(e.newValue) && codec.parse(e.newValue.value).Some? ==>
              v == codec.parse(e.newValue.value).value
  {
    if e.key == Some(key) && Truthy(e.newValue) then
      match codec.parse(e.newValue.value)
      case Some(parsed) => parsed
      case None => current
    else current
  }

  /** Events for another key, a cleared store, a removed key or an empty
      new value leave the value as it is. */
  lemma StorageEventFilter<T>(key: string, codec: Codec<T>, current: T, e: StorageEvent)
    requires e.key != Some(key) || !Truthy(e.newValue)
    ensures AfterStorageEvent(key, codec, current, e) == current
  {
  }

  /** A successful `setValue(v)` in another context, delivered as an event,
      brings this binding to `v`. */
  lemma CrossContextSync<T(!new)>(key: string, codec: Codec<T>, current: T, v: T)
    requires Lawful(codec)
    ensures AfterStorageEvent(key, codec, current, StorageEvent(Some(key), Some(codec.serialize(v)))) == v
  {
  }

  /** A `window.localStorage` or `window.sessionStorage` object. */
  class Storage {
    var entries: map<string, string>

    constructor (entries: map<string, string>)
      ensures this.entries == entries
    {
      this.entries := entries;
    }
  }

  class PersistedValue<T(!new)> {
    const key: string
    const storageType: StorageType
    const codec: Codec<T>
    /** The store object chosen by `storageType`. */
    const storage: Storage
    var storedValue: T
    /** Whether the window's `storage` listener of this binding is installed. */
    var listening: bool

    ghost predicate Valid()
      reads this
    {
      Lawful(codec) && (listening ==> storageType == LocalStorage)
    }

    /** Creation: pick the store, read the key, and start from the stored
        value or from `initialValue`. Nothing is written back. */
    constructor (key: string, initialValue: T, storageType: StorageType,
                 localStorage: Storage, sessionStorage: Storage,
                 codec: Codec<T>, readFails: bool)
      requires Lawful(codec)
      ensures Valid() && !listening
      ensures this.key == key && this.storageType == storageType && this.codec == codec
      ensures storage == if storageType == LocalStorage then localStorage else sessionStorage
      ensures storedValue == InitialValue(GetItem(storage.entries, key), readFails, codec, initialValue)
      ensures localStorage.entries == old(localStorage.entries)
      ensures sessionStorage.entries == old(sessionStorage.entries)
    {
      this.key := key;
      this.storageType := storageType;
      this.codec := codec;
      var chosen := if storageType == LocalStorage then localStorage else sessionStorage;
      this.storage := chosen;
      storedValue := InitialValue(GetItem(chosen.entries, key), readFails, codec, initialValue);
      listening := false;
    }

    /** `setValue`: compute the value to store, set it in memory, then
        write its serialization to the store. A throwing updater changes
        nothing; a failing write leaves the store as it was but keeps the
        in-memory update. No error reaches the caller. */
    method SetValue(arg: SetArg<T>, writeFails: bool)
      requires Valid()
      modifies this, storage
      ensures Valid() && listening == old(listening)
      ensures ValueToStore(arg, old(storedValue)).None? ==>
                storedValue == old(storedValue) && storage.entries == old(storage.entries)
      ensures ValueToStore(arg, old(storedValue)).Some? ==>
                && storedValue == ValueToStore(arg, old(storedValue)).value
                && storage.entries == if writeFails then old(storage.entries)
                                      else old(storage.entries)[key := codec.serialize(storedValue)]
      ensures ValueToStore(arg, old(storedValue)).Some? && !writeFails ==>
                codec.parse(storage.entries[key]) == Some(storedValue)
    {
      var next := ValueToStore(arg, storedValue);
      if next.Some? {
        storedValue := next.value;
        if !writeFails {
          storage.entries := storage.entries[key := codec.serialize(next.value)];
        }
      }
    }

    /** The mount effect: the listener is installed for localStorage only. */
    method Mount()
      requires Valid()
      modifies this
      ensures Valid() && storedValue == old(storedValue)
      ensures listening == (storageType == LocalStorage)
    {
      if storageType == LocalStorage {
        listening := true;
      }
    }

    /** The effect's cleanup: the listener is removed. */
    method Unmount()
      requires Valid()
      modifies this
      ensures Valid() && storedValue == old(storedValue) && !listening
    {
      listening := false;
    }

    /** The window dispatches a `storage` event; only an installed listener
        sees it. */
    method OnStorageEvent(e: StorageEvent)
      requires Valid()
      modifies this
      ensures Valid() && listening == old(listening)
      ensures storedValue == if listening then AfterStorageEvent(key, codec, old(storedValue), e)
                             else old(storedValue)
    {
      if listening {
        storedValue := AfterStorageEvent(key, codec, storedValue, e);
      }
    }
  }
}
