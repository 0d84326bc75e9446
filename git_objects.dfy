/** Loose objects (GitObject, GitBlobObject): the "{type} {length}\0" header,
    its parser, and the object store on disk.  The file system is a map from
    path to file contents; SHA-1 and zlib are functions supplied by the caller. */
module GitObjects {
  import opened Results
  import opened Bytes
  import opened Text
  import opened ObjectTypes

  datatype GitObject = GitObject(Type: ObjectType, Bytes: seq<byte>)

  /** GitBlobObject fixes the kind to Blob and keeps the content as given. */
  function NewBlob(content: seq<byte>): (o: GitObject)
    ensures o.Type == Blob && o.Bytes == content
  {
    GitObject(Blob, content)
  }

  type FileSystem = map<string, seq<byte>>

  /** SHA1.HashData and the two directions of ZlibExtensions. */
  datatype Codecs = Codecs(
    sha1: seq<byte> -> seq<byte>,
    compress: seq<byte> -> seq<byte>,
    decompress: seq<byte> -> seq<byte>)

  /** What the store relies on from SHA-1: a 20-byte digest. */
  ghost predicate DigestIs20Bytes(c: Codecs) {
    forall d :: |c.sha1(d)| == 20
  }

  /** What the store relies on from zlib: decompression undoes compression. */
  ghost predicate DecompressInvertsCompress(c: Codecs) {
    forall d :: c.decompress(c.compress(d)) == d
  }

  const ObjectsDirectory := ".git/objects/"

  /** $".git/objects/{hex[..2]}/{hex[2..]}"; the slice of a string shorter
      than two characters throws. */
  function PathOf(hex: string): (r: Result<string>)
    ensures r.Ok? <==> |hex| >= 2
    ensures r.Err? ==> r.error == OutOfRange
    ensures r.Ok? ==> |r.value| == |hex| + |ObjectsDirectory| + 1
  {
    if |hex| < 2 then Err(OutOfRange) else Ok(ObjectsDirectory + hex[..2] + "/" + hex[2..])
  }

  /** Distinct hashes are stored under distinct paths. */
  lemma PathOfInjective(a: string, b: string)
    requires PathOf(a).Ok? && PathOf(a) == PathOf(b)
    ensures a == b
  {
    var p := PathOf(a).value;
    var k := |ObjectsDirectory|;
    assert p[k..k + 2] == a[..2] && p[k + 3..] == a[2..];
    assert PathOf(b).value[k..k + 2] == b[..2] && PathOf(b).value[k + 3..] == b[2..];
    assert a == a[..2] + a[2..] && b == b[..2] + b[2..];
  }

  /** The header for `n` content bytes of kind `t`. */
  function Header(t: ObjectType, n: nat): string {
    TypeName(t) + " " + NatToString(n) + "\0"
  }

  /** The bytes Write() assembles: type token, space, decimal length, NUL, content. */
  function Serialize(o: GitObject): seq<byte> {
    AsciiEncode(Header(o.Type, |o.Bytes|)) + o.Bytes
  }

  /** The parse in FromHashHexString: the type token ends at the first space,
      the content starts after the first NUL.  With no space the slice
      [..-1] throws; with no NUL, IndexOf's -1 plus one is 0 and the content
      is the whole buffer.  The length field is never read. */
  function Parse(d: seq<byte>): (r: Result<GitObject>)
    ensures r.Ok? ==> exists k :: 0 <= k <= |d| && r.value.Bytes == d[k..]
  {
    var spaceIndex := IndexOf(d, SpaceByte, 0);
    var nullIndex := IndexOf(d, NullByte, 0);
    if spaceIndex == -1 then Err(OutOfRange)
    else
      var t :- ToObjectType(AsciiDecode(d[..spaceIndex]));
      Ok(GitObject(t, d[nullIndex + 1..]))
  }

  /** Facts about the encoded header that locate its two separators. */
  lemma HeaderLayout(t: ObjectType, n: nat)
    ensures var h := AsciiEncode(Header(t, n)); var l := |TypeName(t)|;
      && |h| == l + |NatToString(n)| + 2
      && h[..l] == AsciiEncode(TypeName(t))
      && h[l] == SpaceByte && h[|h| - 1] == NullByte
      && (forall j :: 0 <= j < l ==> h[j] != SpaceByte)
      && (forall j :: 0 <= j < |h| - 1 ==> h[j] != NullByte)
  {
    var name, digits := TypeName(t), NatToString(n);
    TypeNameIsPlain(t);
    NatToStringRoundTrip(n);
    DecimalHasNoSeparators(digits);
    var s := Header(t, n);
    var h := AsciiEncode(s);
    forall j | 0 <= j < |h| - 1 ensures h[j] != NullByte {
      EncodeCharSeparators(s[j]);
      if j < |name| { assert s[j] == name[j]; }
      else if j > |name| { assert s[j] == digits[j - |name| - 1]; }
    }
    forall j | 0 <= j < |name| ensures h[j] != SpaceByte {
      EncodeCharSeparators(s[j]);
      assert s[j] == name[j];
    }
    assert s[..|name|] == name;
  }

  /** Whatever length the header states, the parse returns the kind and
      exactly the bytes after the header: the size is never checked. */
  lemma ParseIgnoresLengthField(t: ObjectType, n: nat, content: seq<byte>)
    ensures Parse(AsciiEncode(Header(t, n)) + content) == Ok(GitObject(t, content))
  {
    var h := AsciiEncode(Header(t, n));
    var d := h + content;
    var l := |TypeName(t)|;
    HeaderLayout(t, n);
    IndexOfAt(d, SpaceByte, 0, l);
    IndexOfAt(d, NullByte, 0, |h| - 1);
    assert d[..l] == AsciiEncode(TypeName(t));
    TypeNameIsPlain(t);
    AsciiRoundTrip(TypeName(t));
    ToObjectTypeInvertsTypeName(TypeName(t), t);
    assert d[|h|..] == content;
  }

  /** Parsing what Write() serialises gives back the kind and the content. */
  lemma ParseSerialize(o: GitObject)
    ensures Parse(Serialize(o)) == Ok(o)
  {
    ParseIgnoresLengthField(o.Type, |o.Bytes|, o.Bytes);
  }

  /** Input without a space byte is rejected. */
  lemma ParseWithoutSpace(d: seq<byte>)
    requires SpaceByte !in d
    ensures Parse(d) == Err(OutOfRange)
  {
  }

  /** A valid type token with no NUL anywhere yields the whole buffer as content. */
  lemma ParseWithoutNul(t: ObjectType, rest: seq<byte>)
    requires NullByte !in rest
    ensures Parse(AsciiEncode(TypeName(t)) + [SpaceByte] + rest)
         == Ok(GitObject(t, AsciiEncode(TypeName(t)) + [SpaceByte] + rest))
  {
    var name := TypeName(t);
    var d := AsciiEncode(name) + [SpaceByte] + rest;
    TypeNameIsPlain(t);
    forall j | 0 <= j < |name| ensures d[j] != SpaceByte && d[j] != NullByte {
      EncodeCharSeparators(name[j]);
    }
    IndexOfAt(d, SpaceByte, 0, |name|);
    assert d[..|name|] == AsciiEncode(name);
    AsciiRoundTrip(name);
    ToObjectTypeInvertsTypeName(name, t);
    assert IndexOf(d, NullByte, 0) == -1;
  }

  /** A type token that is not one of the four names is rejected with it. */
  lemma ParseUnknownType(token: string, rest: seq<byte>)
    requires IsAscii(token) && ' ' !in token
    requires token !in {"commit", "tree", "blob", "tag"}
    ensures Parse(AsciiEncode(token) + [SpaceByte] + rest) == Err(UnknownTypeName(token))
  {
    var d := AsciiEncode(token) + [SpaceByte] + rest;
    forall j | 0 <= j < |token| ensures d[j] != SpaceByte {
      EncodeCharSeparators(token[j]);
    }
    IndexOfAt(d, SpaceByte, 0, |token|);
    assert d[..|token|] == AsciiEncode(token);
    AsciiRoundTrip(token);
  }

  /** GitObject.FromHashHexString over the file system `fs`. */
  function FromHashHexString(fs: FileSystem, hex: string, c: Codecs): (r: Result<GitObject>)
    ensures |hex| < 2 ==> r == Err(OutOfRange)
    ensures PathOf(hex).Ok? && PathOf(hex).value !in fs ==> r == Err(NotFound(hex))
  {
    var path :- PathOf(hex);
    if path !in fs then Err(NotFound(hex))
    else Parse(c.decompress(fs[path]))
  }

  /** The name of an object in the store: the lower-case hex of the hash
      of its serialised bytes. */
  function HashHexOf(o: GitObject, c: Codecs): (hex: string)
    requires DigestIs20Bytes(c)
    ensures |hex| == 40 && IsLowerHex(hex) && HexDecode(hex) == c.sha1(Serialize(o))
  {
    LowerHexRoundTrip(c.sha1(Serialize(o)));
    LowerHex(c.sha1(Serialize(o)))
  }

  /** The file system after `o` has been written to it. */
  function Stored(fs: FileSystem, o: GitObject, c: Codecs): FileSystem
    requires DigestIs20Bytes(c)
  {
    fs[PathOf(HashHexOf(o, c)).value := c.compress(Serialize(o))]
  }

  /** Reading an object back by the hash that writing it returned yields the
      same kind and content. */
  lemma ReadAfterWrite(fs: FileSystem, o: GitObject, c: Codecs)
    requires DigestIs20Bytes(c) && DecompressInvertsCompress(c)
    ensures FromHashHexString(Stored(fs, o, c), HashHexOf(o, c), c) == Ok(o)
  {
    ParseSerialize(o);
  }

  /** Writing one object changes what no other hash reads as. */
  lemma WriteChangesNothingElse(fs: FileSystem, o: GitObject, c: Codecs, h: string)
    requires DigestIs20Bytes(c)
    requires h != HashHexOf(o, c)
    ensures FromHashHexString(Stored(fs, o, c), h, c) == FromHashHexString(fs, h, c)
  {
    if PathOf(h).Ok? && PathOf(h) == PathOf(HashHexOf(o, c)) {
      PathOfInjective(h, HashHexOf(o, c));
    }
  }

  /** The private Write(byte[]): hash, name the file by the lower-case hex of
      the hash, store the compressed data there. */
  method WriteData(fs: FileSystem, data: seq<byte>, c: Codecs) returns (hex: string, fs': FileSystem)
    requires DigestIs20Bytes(c)
    ensures hex == LowerHex(c.sha1(data))
    ensures PathOf(hex).Ok? && fs' == fs[PathOf(hex).value := c.compress(data)]
  {
    var hash := c.sha1(data);
    hex := LowerHex(hash);
    LowerHexRoundTrip(hash);
    var path := ObjectsDirectory + hex[..2] + "/" + hex[2..];
    fs' := fs[path := c.compress(data)];
  }

  /** GitObject.Write(): the stream is filled by five successive writes, then
      stored; reading the returned hash back gives this object, and every
      other hash reads as before. */
  method Write(fs: FileSystem, o: GitObject, c: Codecs) returns (hex: string, fs': FileSystem)
    requires DigestIs20Bytes(c)
    ensures hex == HashHexOf(o, c) && fs' == Stored(fs, o, c)
    ensures DecompressInvertsCompress(c) ==> FromHashHexString(fs', hex, c) == Ok(o)
    ensures forall h :: h != hex ==> FromHashHexString(fs', h, c) == FromHashHexString(fs, h, c)
  {
    var lengthInBytes := AsciiEncode(NatToString(|o.Bytes|));
    var typeInBytes := AsciiEncode(TypeName(o.Type));
    var stream: seq<byte> := [];
    stream := stream + typeInBytes;
    stream := stream + [SpaceByte];
    stream := stream + lengthInBytes;
    stream := stream + [NullByte];
    stream := stream + o.Bytes;
    AsciiEncodeConcat(TypeName(o.Type) + " " + NatToString(|o.Bytes|), "\0");
    AsciiEncodeConcat(TypeName(o.Type) + " ", NatToString(|o.Bytes|));
    AsciiEncodeConcat(TypeName(o.Type), " ");
    assert stream == Serialize(o);
    hex, fs' := WriteData(fs, stream, c);
    if DecompressInvertsCompress(c) {
      ReadAfterWrite(fs, o, c);
    }
    forall h | h != hex ensures FromHashHexString(fs', h, c) == FromHashHexString(fs, h, c) {
      WriteChangesNothingElse(fs, o, c, h);
    }
  }
}
