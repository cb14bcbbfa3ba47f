/**
 The desktop client's persisted settings (`client/src/config.py`): a JSON file
 read whole by every `get_setting` and rewritten whole by every `set_setting`.
 The file is abstract: absent, unreadable (including not valid JSON), or
 holding a JSON document that is an object or some other value. Whether the
 file can be opened for writing is a parameter.
 */
module ClientConfig {
  import opened Options

  /** What `json.load` gives: an object, or any other JSON value. */
  datatype Json<V> = Object(entries: map<string, V>) | NotAnObject

  datatype ConfigFile<V> = Absent | Unreadable | Holds(document: Json<V>)

  /** `load_config`: the document, or {} when the file is missing or cannot be read. */
  function LoadConfig<V>(f: ConfigFile<V>): (j: Json<V>)
    ensures f.Absent? || f.Unreadable? ==> j == Object(map[])
    ensures f.Holds? ==> j == f.document
  {
    match f
    case Holds(document) => document
    case _ => Object(map[])
  }

  /** `get_setting(key, default)`: the stored value or the default; `None` when
      the document is not an object and `.get` raises. */
  function GetSetting<V>(f: ConfigFile<V>, key: string, default: V): (r: Option<V>)
    ensures r.None? <==> LoadConfig(f).NotAnObject?
    ensures LoadConfig(f).Object? && key in LoadConfig(f).entries ==> r == Some(LoadConfig(f).entries[key])
    ensures LoadConfig(f).Object? && key !in LoadConfig(f).entries ==> r == Some(default)
  {
    match LoadConfig(f)
    case NotAnObject => None
    case Object(entries) => Some(if key in entries then entries[key] else default)
  }

  /** The outcome of `set_setting`: the file afterwards, and whether the call raised. */
  datatype SetOutcome<V> = SetOutcome(file: ConfigFile<V>, raised: bool)

  /** `set_setting(key, value)`: load, assign, save. A failed save is swallowed and
      leaves the file as it was; assigning into a non-object raises. */
  function SetSetting<V>(f: ConfigFile<V>, key: string, value: V, writable: bool): (r: SetOutcome<V>)
    ensures r.raised <==> LoadConfig(f).NotAnObject?
    ensures r.raised || !writable ==> r.file == f
    ensures !r.raised && writable ==> r.file == Holds(Object(LoadConfig(f).entries[key := value]))
  {
    match LoadConfig(f)
    case NotAnObject => SetOutcome(f, true)
    case Object(entries) =>
      if writable then SetOutcome(Holds(Object(entries[key := value])), false) else SetOutcome(f, false)
  }

  /** After a successful save, reading the key gives the value just set. */
  lemma GetAfterSet<V>(f: ConfigFile<V>, key: string, value: V, writable: bool, default: V)
    requires LoadConfig(f).Object? && writable
    ensures GetSetting(SetSetting(f, key, value, writable).file, key, default) == Some(value)
  {
  }

  /** Setting one key leaves every other key as it reads before. */
  lemma SetKeepsOthers<V>(f: ConfigFile<V>, key: string, value: V, writable: bool, other: string, default: V)
    requires other != key
    ensures GetSetting(SetSetting(f, key, value, writable).file, other, default) == GetSetting(f, other, default)
  {
  }

  /** A missing or unreadable file is replaced by a document holding just the new key. */
  lemma UnreadableFileIsReplaced<V>(f: ConfigFile<V>, key: string, value: V)
    requires f.Absent? || f.Unreadable?
    ensures SetSetting(f, key, value, true).file == Holds(Object(map[key := value]))
  {
  }
}
