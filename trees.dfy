/** The newer tree object (Objects/Trees/GitTreeObject): a GitObject of kind
    Tree whose Entries are exposed sorted by name.  Built from a list of
    entries, its content is their encodings in the caller's order; built
    from bytes, its content is those bytes and its entries are parsed from
    them. */
module Trees {
  import opened Results
  import opened Bytes
  import opened Sorting
  import opened TreeEntries
  import opened ObjectTypes
  import opened GitObjects

  datatype TreeObject = TreeObject(Bytes: seq<byte>, Entries: seq<Entry>) {

    /** The base record: kind Tree and the content bytes. */
    function AsGitObject(): (o: GitObject)
      ensures o.Type == Tree && o.Bytes == Bytes
    {
      GitObject(Tree, Bytes)
    }
  }

  /** entries.OrderBy(x => x.Name), under the comparer `le`. */
  function OrderByName(es: seq<Entry>, le: (string, string) -> bool): seq<Entry> {
    SortBy(es, NameOf, le)
  }

  /** GitTreeObject(List<GitTreeObjectEntry>). */
  function FromEntries(es: seq<Entry>, le: (string, string) -> bool): (r: Result<TreeObject>)
    ensures r.Ok? <==> es != []
    ensures r.Err? ==> r.error == EmptySequence
  {
    var content :- Aggregate(es);
    Ok(TreeObject(content, OrderByName(es, le)))
  }

  /** GitTreeObject(byte[]), as a function of the content. */
  function FromContent(content: seq<byte>, le: (string, string) -> bool): Result<TreeObject> {
    var es :- ParseEntriesFrom(content, 0);
    Ok(TreeObject(content, OrderByName(es, le)))
  }

  /** GitTreeObject(byte[]): the content is kept as given; only the parsed
      entries are reordered. */
  method NewFromContent(contentBytes: seq<byte>, le: (string, string) -> bool) returns (r: Result<TreeObject>)
    ensures r == FromContent(contentBytes, le)
    ensures r.Ok? ==> r.value.Bytes == contentBytes
    ensures r.Ok? && TotalPreorder(le) ==> SortedBy(r.value.Entries, NameOf, le)
  {
    var parsed := ParseEntries(contentBytes);
    if parsed.Err? {
      return Err(parsed.error);
    }
    r := Ok(TreeObject(contentBytes, OrderByName(parsed.value, le)));
    if TotalPreorder(le) {
      SortByIsSorted(parsed.value, NameOf, le);
    }
  }

  /** The exposed entries are a sorted, stable permutation of the caller's list. */
  lemma FromEntriesOrdersEntries(es: seq<Entry>, le: (string, string) -> bool, k: string)
    requires es != [] && TotalPreorder(le)
    ensures SortedBy(FromEntries(es, le).value.Entries, NameOf, le)
    ensures multiset(FromEntries(es, le).value.Entries) == multiset(es)
    ensures KeepEquivalent(FromEntries(es, le).value.Entries, NameOf, le, k) == KeepEquivalent(es, NameOf, le, k)
  {
    SortByIsSorted(es, NameOf, le);
    SortByPermutes(es, NameOf, le);
    SortByIsStable(es, NameOf, le, k);
  }

  /** The content encodes the caller's list as given: parsing it returns
      that list, not the sorted one. */
  lemma FromEntriesContentInCallerOrder(es: seq<Entry>, le: (string, string) -> bool)
    requires es != [] && forall i :: 0 <= i < |es| ==> WellFormed(es[i])
    ensures FromEntries(es, le).value.AsGitObject() == GitObject(Tree, ConcatBytes(es))
    ensures ParseEntriesFrom(FromEntries(es, le).value.Bytes, 0) == Ok(es)
  {
    ParseConcat(es);
  }

  /** For entries given out of name order the content and the exposed
      entries disagree: the content starts with "b", Entries with "a". */
  lemma ContentDiffersFromSortedEntries()
    ensures var h := seq(HashLength, _ => 0);
      var es := [Entry("100644", "b", h), Entry("100644", "a", h)];
      var t := FromEntries(es, OrdinalLe).value;
      && t.Entries == [es[1], es[0]]
      && t.Bytes != ConcatBytes(t.Entries)
  {
    var h: seq<byte> := seq(HashLength, _ => 0);
    var b, a := Entry("100644", "b", h), Entry("100644", "a", h);
    assert !OrdinalLe("b", "a");
    assert OrdinalLe("a", "b");
    assert [b, a][1..] == [a] && [a][1..] == [] && [a, b][1..] == [b] && [b][1..] == [];
    assert SortBy([a], NameOf, OrdinalLe) == [a];
    assert Insert(b, [a], NameOf, OrdinalLe) == [a] + Insert(b, [], NameOf, OrdinalLe);
    assert OrderByName([b, a], OrdinalLe) == [a, b];
    EntryBytesLayout(a);
    EntryBytesLayout(b);
    assert b.Bytes()[7..8] == AsciiEncode(b.Name);
    assert a.Bytes()[7..8] == AsciiEncode(a.Name);
    assert AsciiEncode(b.Name)[0] == EncodeChar('b') == 98;
    assert AsciiEncode(a.Name)[0] == EncodeChar('a') == 97;
    assert (b.Bytes() + a.Bytes())[7] == 98;
    assert (a.Bytes() + b.Bytes())[7] == 97;
    assert ConcatBytes([]) == [];
    assert ConcatBytes([a]) == a.Bytes() + ConcatBytes([]);
    assert ConcatBytes([b]) == b.Bytes() + ConcatBytes([]);
    assert ConcatBytes([b, a]) == b.Bytes() + ConcatBytes([a]);
    assert ConcatBytes([a, b]) == a.Bytes() + ConcatBytes([b]);
    assert ConcatBytes([b, a])[7] == 98;
    assert ConcatBytes([a, b])[7] == 97;
  }

  /** Rebuilding a tree from the content of one built from well-formed
      entries gives back the same object: the same content and the same
      sorted entries. */
  lemma ContentRoundTrip(es: seq<Entry>, le: (string, string) -> bool)
    requires es != [] && forall i :: 0 <= i < |es| ==> WellFormed(es[i])
    ensures FromContent(FromEntries(es, le).value.Bytes, le) == FromEntries(es, le)
  {
    ParseConcat(es);
  }

  /** Writing a tree to the store and reading it back as an object and then
      as a tree yields the same tree. */
  lemma StoreRoundTrip(fs: FileSystem, es: seq<Entry>, le: (string, string) -> bool, c: Codecs)
    requires es != [] && forall i :: 0 <= i < |es| ==> WellFormed(es[i])
    requires DigestIs20Bytes(c) && DecompressInvertsCompress(c)
    ensures var t := FromEntries(es, le).value;
      var read := FromHashHexString(Stored(fs, t.AsGitObject(), c), HashHexOf(t.AsGitObject(), c), c);
      read.Ok? && read.value.Type == Tree && FromContent(read.value.Bytes, le) == Ok(t)
  {
    var t := FromEntries(es, le).value;
    ReadAfterWrite(fs, t.AsGitObject(), c);
    ContentRoundTrip(es, le);
  }
}
