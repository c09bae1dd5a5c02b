/** The dictionary entries the comparison harness and the dictionary filter read: JSON objects
    with a word, its reference syllables and its reference tonic position. */
module DictionaryEntry {
  import opened Wrappers

  /** A field of a JSON object: absent, `null`, or a value. */
  datatype Field<T> = Missing | Null | Present(value: T)

  /** One entry of the dictionary. */
  datatype Entry = Entry(word: Field<string>, syllables: Field<seq<string>>, tonic: Field<int>)

  /** `entry.get(key)`: nothing for an absent key and for `null`. */
  function Get<T>(f: Field<T>): Option<T>
  {
    match f
    case Present(v) => Some(v)
    case _ => None
  }

  /** `entry.get(key, default)`: the default for an absent key, nothing for `null`. */
  function GetOr<T>(f: Field<T>, default: T): Option<T>
  {
    match f
    case Missing => Some(default)
    case Null => None
    case Present(v) => Some(v)
  }
}
