/** The header table the decoder reads and fills (QPACKHeaderTable, in
    hpack/table.py, which is not part of this model), stated abstractly:
    a static table, the dynamic entries in insertion order, and the size
    limit the encoder has set. Absolute index i names the i-th inserted
    entry, so largest_ref is the number of insertions. */
module HeaderTable {
  import opened Errors
  import opened Bytes

  datatype Entry = Entry(name: seq<byte>, value: seq<byte>)

  /** table_entry_size(name, value): the length of both strings plus a
      32-byte overhead, as section 4.1 of RFC 7541 defines. */
  function EntrySize(name: seq<byte>, value: seq<byte>): (r: nat)
    ensures r >= 32 && r - 32 == |name| + |value|
  {
    |name| + |value| + 32
  }

  datatype Table = Table(staticEntries: seq<Entry>, entries: seq<Entry>, maxSize: nat)
  {
    /** The absolute index of the newest entry, 0 before any insertion. */
    function LargestRef(): nat
    {
      |entries|
    }

    /** add(name, value): the entry gets the next absolute index. */
    function Add(name: seq<byte>, value: seq<byte>): (t: Table)
      ensures t.LargestRef() == LargestRef() + 1
      ensures t.GetByIndex(t.LargestRef(), false) == Ok(Entry(name, value))
      ensures forall i :: 1 <= i <= LargestRef() ==> t.GetByIndex(i, false) == GetByIndex(i, false)
      ensures t.staticEntries == staticEntries && t.maxSize == maxSize
    {
      Table(staticEntries, entries + [Entry(name, value)], maxSize)
    }

    /** get_by_index(index, static): a static index counts from 0 into the
        static table; a dynamic one is absolute, from 1 to largest_ref.
        Anything else is an InvalidTableIndex error. */
    function GetByIndex(index: int, isStatic: bool): (r: Result<Entry>)
      ensures r.Ok? <==> if isStatic then 0 <= index < |staticEntries| else 1 <= index <= LargestRef()
      ensures r.Err? ==> r.error == HpackDecodingError(InvalidTableIndex)
      ensures r.Ok? ==> r.value in (if isStatic then staticEntries else entries)
    {
      if isStatic then
        if 0 <= index < |staticEntries| then Ok(staticEntries[index])
        else Err(HpackDecodingError(InvalidTableIndex))
      else
        if 1 <= index <= |entries| then Ok(entries[index - 1])
        else Err(HpackDecodingError(InvalidTableIndex))
    }

    /** The table's maxsize with the encoder's new value. */
    function Resize(size: nat): (t: Table)
      ensures t.maxSize == size
      ensures t.staticEntries == staticEntries && t.entries == entries
    {
      Table(staticEntries, entries, size)
    }
  }

  /** t2 holds every entry of t1 at the same absolute index, and the same
      static table: t1's dynamic entries are a prefix of t2's. */
  ghost predicate Extends(t1: Table, t2: Table)
  {
    && t2.staticEntries == t1.staticEntries
    && |t1.entries| <= |t2.entries|
    && t2.entries[..|t1.entries|] == t1.entries
  }

  /** A table that extends another resolves every absolute index the other
      resolves to the same entry. */
  lemma ExtendsKeepsIndices(t1: Table, t2: Table)
    requires Extends(t1, t2)
    ensures t1.LargestRef() <= t2.LargestRef()
    ensures forall i :: 1 <= i <= t1.LargestRef() ==> t2.GetByIndex(i, false) == t1.GetByIndex(i, false)
  {
    forall i | 1 <= i <= t1.LargestRef()
      ensures t2.GetByIndex(i, false) == t1.GetByIndex(i, false)
    {
      assert t2.entries[i - 1] == t2.entries[..|t1.entries|][i - 1];
    }
  }

  lemma ExtendsTransitive(t1: Table, t2: Table, t3: Table)
    requires Extends(t1, t2) && Extends(t2, t3)
    ensures Extends(t1, t3)
  {
    assert t3.entries[..|t1.entries|] == t3.entries[..|t2.entries|][..|t1.entries|];
  }
}
