/**
 * Record metadata and the two record base classes, DatabaseItem and
 * TableItem. Both carry a settable Id and ETag; validation requires both
 * to differ from their defaults, and equality, hashing and the text form
 * look at the Id alone.
 */
module Items {
  import opened Wrappers
  import opened Guids

  /**
   * What a record type tells the statement composer about itself: its table,
   * whether it implements the ITimeStamped marker, and its own columns in
   * declaration order.
   */
  datatype Metadata = Metadata(tableName: string, timeStamped: bool, customColumnNames: seq<string>)

  /** The persisted state of one record: what a row of its table holds. */
  datatype Record = Record(id: Guid, etag: Option<string>, values: seq<string>)

  /** A record that may be written: non-default Id and a non-null ETag. */
  predicate Persistable(r: Record) {
    r.id != EmptyGuid && r.etag.Some?
  }

  /**
   * A record object deriving from DatabaseItem. `values` holds the values of
   * the columns after Id and ETag; `meta` is what its type declares.
   */
  class DatabaseItem {
    const meta: Metadata
    var id: Guid
    var etag: Option<string>
    var values: seq<string>

    /** `new TDatabaseItem()`: Id and ETag start at their default values. */
    constructor (meta: Metadata, values: seq<string>)
      ensures this.meta == meta && this.values == values
      ensures id == EmptyGuid && etag == None
    {
      this.meta := meta;
      this.values := values;
      id := EmptyGuid;
      etag := None;
    }

    /** The row this object is written as. */
    function Snapshot(): Record
      reads this
    {
      Record(id, etag, values)
    }

    /**
     * Validate: the name of the property that fails, or None when the
     * object is valid. Id is checked before ETag.
     */
    function Validate(): (violation: Option<string>)
      reads this
      ensures violation == None <==> Persistable(Snapshot())
      ensures violation == Some("Id") <==> id == EmptyGuid
      ensures violation == Some("ETag") <==> id != EmptyGuid && etag == None
    {
      if id == EmptyGuid then Some("Id") else if etag == None then Some("ETag") else None
    }

    /** ToString: the text form of the Id. */
    function ToString(): (s: string)
      reads this
      ensures |s| == 36 && ParseGuid(s) == Some(id)
    {
      GuidTextRoundTrip(id);
      GuidText(id)
    }

    /**
     * Equals, applied to the result of `obj as DatabaseItem`: null when the
     * argument is null or of another class.
     */
    predicate Equals(obj: DatabaseItem?)
      reads this, obj
    {
      obj != null && id == obj.id
    }

    /** GetHashCode: the hash of the Id; `guidHash` is `Guid.GetHashCode`. */
    function GetHashCode(guidHash: Guid -> int): int
      reads this
    {
      guidHash(id)
    }
  }

  /** Equals is an equivalence that compares the Ids and nothing else. */
  lemma DatabaseItemEquality(a: DatabaseItem, b: DatabaseItem, c: DatabaseItem)
    ensures a.Equals(a) && !a.Equals(null)
    ensures a.Equals(b) <==> a.id == b.id
    ensures a.Equals(b) ==> b.Equals(a)
    ensures a.Equals(b) && b.Equals(c) ==> a.Equals(c)
  {
  }

  /** Equal objects hash equally, whatever their ETags and other values. */
  lemma DatabaseItemHashConsistent(a: DatabaseItem, b: DatabaseItem, guidHash: Guid -> int)
    ensures a.Equals(b) ==> a.GetHashCode(guidHash) == b.GetHashCode(guidHash)
  {
  }

  /** The text form identifies the object up to Equals. */
  lemma DatabaseItemTextIdentifies(a: DatabaseItem, b: DatabaseItem)
    ensures a.ToString() == b.ToString() <==> a.Equals(b)
  {
    GuidTextInjective(a.id, b.id);
  }

  /** A record object deriving from TableItem; the same checks as DatabaseItem. */
  class TableItem {
    const meta: Metadata
    var id: Guid
    var etag: Option<string>
    var values: seq<string>

    constructor (meta: Metadata, values: seq<string>)
      ensures this.meta == meta && this.values == values
      ensures id == EmptyGuid && etag == None
    {
      this.meta := meta;
      this.values := values;
      id := EmptyGuid;
      etag := None;
    }

    function Snapshot(): Record
      reads this
    {
      Record(id, etag, values)
    }

    /** Validate (its error location and property path only label the failure). */
    function Validate(): (violation: Option<string>)
      reads this
      ensures violation == None <==> Persistable(Snapshot())
      ensures violation == Some("Id") <==> id == EmptyGuid
      ensures violation == Some("ETag") <==> id != EmptyGuid && etag == None
    {
      if id == EmptyGuid then Some("Id") else if etag == None then Some("ETag") else None
    }

    function ToString(): (s: string)
      reads this
      ensures |s| == 36 && ParseGuid(s) == Some(id)
    {
      GuidTextRoundTrip(id);
      GuidText(id)
    }

    /** Equals, applied to the result of `obj as TableItem`. */
    predicate Equals(obj: TableItem?)
      reads this, obj
    {
      obj != null && id == obj.id
    }

    function GetHashCode(guidHash: Guid -> int): int
      reads this
    {
      guidHash(id)
    }
  }

  lemma TableItemEquality(a: TableItem, b: TableItem, c: TableItem)
    ensures a.Equals(a) && !a.Equals(null)
    ensures a.Equals(b) <==> a.id == b.id
    ensures a.Equals(b) ==> b.Equals(a)
    ensures a.Equals(b) && b.Equals(c) ==> a.Equals(c)
  {
  }

  lemma TableItemHashConsistent(a: TableItem, b: TableItem, guidHash: Guid -> int)
    ensures a.Equals(b) ==> a.GetHashCode(guidHash) == b.GetHashCode(guidHash)
  {
  }

  lemma TableItemTextIdentifies(a: TableItem, b: TableItem)
    ensures a.ToString() == b.ToString() <==> a.Equals(b)
  {
    GuidTextInjective(a.id, b.id);
  }
}
