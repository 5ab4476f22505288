/**
 * CardDetailsAPI.Models: the CardDetails record the parser fills in, and the
 * Dictionary<int, string> it holds for the people printed on the card.
 * A C# string property that may be null is an Option<string>.
 */
module Models {
  import opened Wrappers

  /** System.Collections.Generic.Dictionary: a mutable table, reached by reference. */
  class Dictionary<K(==), V> {
    var Entries: map<K, V>

    /** new Dictionary<K, V>(): an empty table. */
    constructor ()
      ensures Entries == map[]
    {
      Entries := map[];
    }

    /** The indexer's setter, this[key] = value: adds the key or overwrites its value. */
    method Set(key: K, value: V)
      modifies this
      ensures Entries == old(Entries)[key := value]
    {
      Entries := Entries[key := value];
    }
  }

  /** The value a CardDetails record holds at one moment. */
  datatype CardValue = CardValue(
    number: Option<string>,
    people: map<int, string>,
    expiry: Option<string>,
    imageFile: Option<string>)

  /** What a freshly constructed record holds: null strings and no people. */
  const EmptyCard := CardValue(None, map[], None, None)

  class CardDetails {
    var Number: Option<string>
    var People: Dictionary<int, string>
    var Expiry: Option<string>
    var ImageFile: Option<string>

    /** The record's current value, including the entries of its People table. */
    function Value(): CardValue
      reads this, People
    {
      CardValue(Number, People.Entries, Expiry, ImageFile)
    }

    /**
     * The auto-properties start out null; the constructor sets People to a
     * fresh, empty dictionary.
     */
    constructor ()
      ensures fresh(People)
      ensures Number == None && Expiry == None && ImageFile == None
      ensures People.Entries == map[]
      ensures Value() == EmptyCard
    {
      Number := None;
      Expiry := None;
      ImageFile := None;
      People := new Dictionary<int, string>();
    }
  }
}
