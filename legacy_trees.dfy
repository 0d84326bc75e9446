/** The older tree object (Objects/GitTreeObject): only the entry list is
    stored; Header, Body, Bytes, the hash and the path are computed from it
    on every access.  Loading skips the header up to the first NUL and
    parses the rest with the same cursor loop as the newer snapshot. */
module LegacyTrees {
  import opened Results
  import opened Bytes
  import opened Text
  import opened Sorting
  import opened TreeEntries
  import opened ObjectTypes
  import opened GitObjects

  datatype LegacyTree = LegacyTree(Entries: seq<Entry>) {

    /** The entry encodings in list order; Aggregate fails on no entries. */
    function Body(): Result<seq<byte>> {
      Aggregate(Entries)
    }

    /** $"tree {Body.Length}\0". */
    function Header(): Result<string> {
      var body :- Body();
      Ok("tree " + NatToString(|body|) + "\0")
    }

    function Bytes(): Result<seq<byte>> {
      var header :- Header();
      var body :- Body();
      Ok(AsciiEncode(header) + body)
    }

    function HashHexString(c: Codecs): Result<string> {
      var bytes :- Bytes();
      Ok(LowerHex(c.sha1(bytes)))
    }

    function Path(c: Codecs): Result<string> {
      var hex :- HashHexString(c);
      PathOf(hex)
    }
  }

  /** Bytes is exactly the loose-object serialisation of a Tree with content
      Body, so Hash and Path agree with what GitObject.Write would produce. */
  lemma BytesIsLooseObject(t: LegacyTree, c: Codecs)
    requires t.Entries != []
    ensures t.Bytes() == Ok(Serialize(GitObject(Tree, ConcatBytes(t.Entries))))
    ensures t.Header() == Ok(GitObjects.Header(Tree, |ConcatBytes(t.Entries)|))
    ensures DigestIs20Bytes(c) ==> t.Path(c) == PathOf(HashHexOf(GitObject(Tree, ConcatBytes(t.Entries)), c))
  {
    var digits := NatToString(|ConcatBytes(t.Entries)|);
    assert "tree " + digits + "\0" == TypeName(Tree) + " " + digits + "\0";
  }

  /** Without entries no property can be computed. */
  lemma EmptyTreeFails(c: Codecs)
    ensures LegacyTree([]).Body() == Err(EmptySequence)
    ensures LegacyTree([]).Bytes() == Err(EmptySequence)
    ensures LegacyTree([]).Path(c) == Err(EmptySequence)
  {
  }

  /** GitTreeObject.FromHashHexString, as a function of the file system. */
  function Load(fs: FileSystem, hex: string, c: Codecs, le: (string, string) -> bool): Result<LegacyTree> {
    var path :- PathOf(hex);
    if path !in fs then Err(NotFound(hex))
    else
      var decompressed := c.decompress(fs[path]);
      var headerNullIndex := IndexOf(decompressed, NullByte, 0);
      var es :- ParseEntriesFrom(decompressed[headerNullIndex + 1..], 0);
      Ok(LegacyTree(SortBy(es, NameOf, le)))
  }

  /** GitTreeObject.FromHashHexString: find the file, skip "tree <size>\0",
      run the parse loop, sort the entries by name. */
  method FromHashHexString(fs: FileSystem, hex: string, c: Codecs, le: (string, string) -> bool)
    returns (r: Result<LegacyTree>)
    ensures r == Load(fs, hex, c, le)
    ensures r.Ok? && TotalPreorder(le) ==> SortedBy(r.value.Entries, NameOf, le)
  {
    if |hex| < 2 {
      return Err(OutOfRange);
    }
    var path := ObjectsDirectory + hex[..2] + "/" + hex[2..];
    if path !in fs {
      return Err(NotFound(hex));
    }
    var decompressed := c.decompress(fs[path]);
    var headerNullIndex := IndexOf(decompressed, NullByte, 0);
    var hashContent := decompressed[headerNullIndex + 1..];
    var entries := ParseEntries(hashContent);
    if entries.Err? {
      return Err(entries.error);
    }
    r := Ok(LegacyTree(SortBy(entries.value, NameOf, le)));
    if TotalPreorder(le) {
      SortByIsSorted(entries.value, NameOf, le);
    }
  }

  /** Loaded entries are a sorted permutation of the parsed ones, so a loaded
      tree re-serialises its Body in sorted order. */
  lemma LoadedEntriesSorted(fs: FileSystem, hex: string, c: Codecs, le: (string, string) -> bool)
    requires TotalPreorder(le) && Load(fs, hex, c, le).Ok?
    ensures SortedBy(Load(fs, hex, c, le).value.Entries, NameOf, le)
    ensures PathOf(hex).Ok? && PathOf(hex).value in fs
    ensures var d := c.decompress(fs[PathOf(hex).value]);
      var parsed := ParseEntriesFrom(d[IndexOf(d, NullByte, 0) + 1..], 0);
      parsed.Ok? && multiset(Load(fs, hex, c, le).value.Entries) == multiset(parsed.value)
  {
    var path := PathOf(hex).value;
    var d := c.decompress(fs[path]);
    var es := ParseEntriesFrom(d[IndexOf(d, NullByte, 0) + 1..], 0).value;
    SortByIsSorted(es, NameOf, le);
    SortByPermutes(es, NameOf, le);
  }

  /** Storing the Bytes of a tree whose well-formed entries are already in
      name order and loading it by its hash gives back the same tree. */
  lemma StoreRoundTrip(fs: FileSystem, t: LegacyTree, c: Codecs, le: (string, string) -> bool)
    requires t.Entries != [] && forall i :: 0 <= i < |t.Entries| ==> WellFormed(t.Entries[i])
    requires SortedBy(t.Entries, NameOf, le)
    requires DigestIs20Bytes(c) && DecompressInvertsCompress(c)
    ensures var o := GitObject(Tree, ConcatBytes(t.Entries));
      Load(Stored(fs, o, c), HashHexOf(o, c), c, le) == Ok(t)
  {
    var body := ConcatBytes(t.Entries);
    var o := GitObject(Tree, body);
    var d := Serialize(o);
    var h := AsciiEncode(GitObjects.Header(Tree, |body|));
    HeaderLayout(Tree, |body|);
    IndexOfAt(d, NullByte, 0, |h| - 1);
    assert d[|h|..] == body;
    ParseConcat(t.Entries);
    SortBySortedIsIdentity(t.Entries, NameOf, le);
  }
}
