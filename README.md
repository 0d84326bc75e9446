# Byte-level codecs of codecrafters-git-csharp, in Dafny

This project models the parts of a small C# Git implementation that turn
objects into bytes and back. It then proves what each encoder and decoder
promises.

- **Loose objects** (`GitObject`, `GitBlobObject`).
  - The `"{type} {length}\0"` header that `Write()` assembles.
  - The parser in `FromHashHexString`.
  - The `.git/objects/xx/yyyy…` storage path.
  - Writing and reading through an object store.
  - Modules `GitObjects` and `ObjectTypes`.
- **Kinds.** The two `ToObjectType` mappings: one from a header token, one
  from a packfile type code (modules `ObjectTypes` and `PackObjectTypes`).
- **Tree entries.** The `"{mode} {name}\0" ++ hash` encoding, and the
  lower-case hex of the hash. Both snapshots of the entry record encode
  the same way (module `TreeEntries`).
- **Tree parsing.** The cursor loop that reads entries back. It appears
  once in each tree snapshot, and the model writes it once as
  `TreeEntries.ParseEntries`.
- **Two tree objects.** The newer `Objects/Trees/GitTreeObject` (module
  `Trees`) and the older `Objects/GitTreeObject` (module `LegacyTrees`).
  They differ in behaviour: the newer one keeps its content in the
  caller's order but exposes its entries sorted by name.
- **Sorting.** `OrderBy(x => x.Name)` is modelled as a stable insertion sort,
  which gives the same result as any stable sort under a total preorder. The key
  comparer is a parameter that is assumed to be a total preorder (module
  `Sorting`).
- **Commit objects.** The commit text, its `commit {length}\0` header, and
  the author and committer lines. These are the name, the email, the Unix
  seconds and the `zzz` zone (module `Commits`).
- **Packfiles.** The 20-byte packfile header with its two big-endian
  32-bit fields. The "size-encoding" varint (7 data bits per byte, bit 7
  means "more"). The split of a record header into a type code (bits
  4–6) and a size (module `Packfiles`).
- **Shared helpers.**
  - .NET's ASCII encoding and decoding, which replace what they cannot
    map with `?`.
  - `Array.IndexOf`.
  - Decimal rendering and lower-case hex, each with a parser as its
    partner.
  - Modules `Bytes`, `Text` and `Results`.

## Conventions

- Exceptions become values of `Results.Result`; `Results.Error` names the
  .NET exception each case stands for.
- The file system is a map from path to file contents.
- SHA-1 and the two zlib directions are functions, passed in a
  `GitObjects.Codecs` value.
- A lemma that needs them to behave states what it needs as a
  precondition:
  - `DigestIs20Bytes`: every digest is 20 bytes;
  - `DecompressInvertsCompress`: decompressing undoes compressing.
- The stream that `ReadVarintByte` reads is a byte sequence and a cursor.
- `ReadSizeEncoding` and `ParseEntries` are methods with their loops.
  Each is proved equal to a recursive reference function:
  `Packfiles.SizeEncodingAt` and `TreeEntries.ParseEntriesFrom`.

### Notable behaviour of the code

- `ToObjectType(string)` accepts `"tag"` as well as `"commit"`, `"tree"` and
  `"blob"` (src/Git/Extensions/ObjectTypeExtensions.cs:14).
- The packfile constructor checks neither the `PACK` magic nor the version;
  it only slices the first 20 bytes (src/Git/Packfiles/Packfile.cs:23-31).
- The zone in author and committer lines is .NET's `zzz` format, `±hh:mm`
  (src/Git/Objects/Commits/GitCommitObjectAuthorEntry.cs:7).
- A loose object whose buffer has no NUL byte does not fail
  (src/Git/Objects/GitObject.cs:23-28). `IndexOf` returns -1, so the content
  starts at index 0 and is the whole buffer (`GitObjects.ParseWithoutNul`).
  Only a missing space fails.
- The packfile type codes come from the `ObjectType` enum that
  `Packfile.cs` casts to (src/Git/Packfiles/ObjectType.cs:3-12). It has no
  member for code 5, yet the cast at src/Git/Packfiles/Packfile.cs:93 can
  produce it. The model's `PackObjectTypes.PackObjectType` calls that value
  `Reserved`.

## Model

| member | source | states |
|---|---|---|
| Packfiles.NewPackfile | src/Git/Packfiles/Packfile.cs:23-31 | Fails with OutOfRange exactly when there are fewer than 20 bytes. Otherwise it keeps the bytes. Head is the ASCII decoding of the 8 bytes at 0 and Signature that of the 4 at 8. Version and ObjectCount are the big-endian reads of bytes 12–16 and 16–20, and the content is everything from byte 20 on. |
| Packfiles.PackfileFields | src/Git/Packfiles/Packfile.cs:26-30 | Version and ObjectCount re-encode to bytes 12–16 and 16–20. When the first 12 bytes are ASCII, Head, Signature and the rest re-encode to the whole input. Nothing in the header is lost. |
| Packfiles.ReadInt32BigEndian | src/Git/Packfiles/Packfile.cs:28-29 | The value is a signed 32-bit integer. |
| Packfiles.Int32RoundTrip | src/Git/Packfiles/Packfile.cs:28-29 | Reading the four big-endian bytes of any signed 32-bit value gives that value back. |
| Packfiles.Int32BytesRoundTrip | src/Git/Packfiles/Packfile.cs:28-29 | Writing what four bytes read as gives those bytes back. The read is two's complement, most significant byte first, and injective. |
| Packfiles.ReadVarintByte | src/Git/Packfiles/Packfile.cs:132-147 | Fails with EndOfStream exactly when no byte is left at the cursor. The value is below 128. The flag is set exactly when bit 7 is set. The byte is value + 128·flag. |
| Packfiles.ReadSizeEncoding | src/Git/Packfiles/Packfile.cs:105-123 | The loop's result, value and end cursor or failure, equals the reference reading SizeEncodingAt. That is the sum of each byte's low seven bits shifted by 7·i, up to the first byte with bit 7 clear. |
| Packfiles.SizeEncodingFails | src/Git/Packfiles/Packfile.cs:110-122 | The reading fails exactly when no byte from the cursor on has bit 7 clear, and the failure is EndOfStream. |
| Packfiles.SizeEncodingConsumes | src/Git/Packfiles/Packfile.cs:110-122 | A reading stops right after the first byte with bit 7 clear; every byte before it has bit 7 set. The value fits in 7 bits per byte read. |
| Packfiles.EncodeGroupsRoundTrip | src/Git/Packfiles/Packfile.cs:105-123 | The canonical seven-bit-group encoding of any n, followed by anything, reads back as n and consumes exactly its own length. This holds in the unbounded model; the source agrees for n below 2^31. |
| Packfiles.KeepBits | src/Git/Packfiles/Packfile.cs:126-129 | The result is below 2^bits. A value that already fits is returned unchanged. |
| Packfiles.SplitTypeAndSize | src/Git/Packfiles/Packfile.cs:92-97 | The type code is bits 4–6 of the value. The size's low four bits are the value's low four bits. The size above them is the value from bit 7 up. The cursor is unchanged. |
| Packfiles.ReadTypeAndSize | src/Git/Packfiles/Packfile.cs:85-100 | The result is the split of the size-encoding read at the cursor. A failed read is passed on. |
| Packfiles.SingleByteHeader | src/Git/Packfiles/Packfile.cs:90-99 | A byte with bit 7 clear is a whole header: type code b / 16, size b % 16, one byte consumed. |
| Packfiles.TypeAndSizeRoundTrip | src/Git/Packfiles/Packfile.cs:87-99 | The canonical header for any type code below 8 and any size reads back as that type and size, whatever follows. It stops right after the header. This holds in the unbounded model; the source agrees for sizes below 2^28. |
| PackObjectTypes.FromCode | src/Git/Packfiles/ObjectType.cs:3-12 | The cast of a three-bit code is the enum value carrying that code. Codes 1–4 are Commit, Tree, Blob and Tag; 6 and 7 are the two delta kinds. |
| PackObjectTypes.FromCodeOfCode | src/Git/Packfiles/ObjectType.cs:5-11 | Casting a value's code gives the value back. |
| PackObjectTypes.ToObjectType | src/Git/Extensions/PackObjectTypeExtensions.cs:8-18 | Every failure is UnsupportedPackType. |
| PackObjectTypes.ToObjectTypeExactly | src/Git/Extensions/PackObjectTypeExtensions.cs:10-17 | A pack type maps to kind t exactly when it is t's own pack type. The mapping succeeds exactly for codes 1–4, never for Unknown, code 5 or a delta. |
| PackObjectTypes.ToObjectTypeInjective | src/Git/Extensions/PackObjectTypeExtensions.cs:12-15 | Two pack types that map to the same kind are equal. |
| ObjectTypes.ToObjectType | src/Git/Extensions/ObjectTypeExtensions.cs:7-17 | Every failure is UnknownTypeName, carrying the rejected string. |
| ObjectTypes.TypeName | src/Git/Objects/GitObject.cs:34 | `Type.ToString().ToLower()`. Its contracts are TypeNameIsPlain and ToObjectTypeInvertsTypeName. |
| ObjectTypes.ToObjectTypeInvertsTypeName | src/Git/Extensions/ObjectTypeExtensions.cs:9-16 | A string maps to kind t exactly when it is t's lower-case name. So the mapping inverts the header token and is injective. |
| ObjectTypes.ToObjectTypeFails | src/Git/Extensions/ObjectTypeExtensions.cs:15 | Any other string is rejected; the match is case-sensitive. |
| ObjectTypes.TypeNameIsPlain | src/Git/Objects/GitObject.cs:34 | The token written for a kind is ASCII, at least three characters long, and has no space and no NUL. |
| GitObjects.NewBlob | src/Git/Objects/Blobs/GitBlobObject.cs:5 | A blob has kind Blob and the given content. |
| GitObjects.PathOf | src/Git/Objects/GitObject.cs:14 | A path exists exactly for hashes of at least two characters; a shorter one fails with OutOfRange. The path's length is the hash's plus the fixed parts. |
| GitObjects.PathOfInjective | src/Git/Objects/GitObject.cs:52 | Distinct hashes get distinct paths. |
| GitObjects.HeaderLayout | src/Git/Objects/GitObject.cs:33-41 | The encoded header is the type token, one space, the decimal length and a final NUL. The token has no space and there is no NUL before the end. |
| GitObjects.Parse | src/Git/Objects/GitObject.cs:22-28 | A parsed object's content is a suffix of the buffer. |
| GitObjects.ParseIgnoresLengthField | src/Git/Objects/GitObject.cs:22-28 | Whatever length the header states, the parse returns the header's kind and exactly the bytes after the header. |
| GitObjects.ParseSerialize | src/Git/Objects/GitObject.cs:22-42 | Parsing what Write serialises gives back the kind and the content. |
| GitObjects.ParseWithoutSpace | src/Git/Objects/GitObject.cs:22-25 | A buffer without a space byte fails with OutOfRange. |
| GitObjects.ParseWithoutNul | src/Git/Objects/GitObject.cs:23-28 | A valid type token followed by bytes with no NUL parses, and the content is the whole buffer. |
| GitObjects.ParseUnknownType | src/Git/Objects/GitObject.cs:25-26 | An ASCII token without a space that names no kind fails with UnknownTypeName, carrying that token. |
| GitObjects.FromHashHexString | src/Git/Objects/GitObject.cs:12-29 | A hash shorter than two characters fails with OutOfRange. A path missing from the store fails with NotFound of the hash. |
| GitObjects.Header | src/Git/Objects/GitObject.cs:33-40 | The header text: type token, space, decimal length, NUL. Its contract is HeaderLayout. |
| GitObjects.Serialize | src/Git/Objects/GitObject.cs:33-42 | The bytes Write() streams out: the ASCII header, then the content. Its contracts are HeaderLayout and ParseSerialize. |
| GitObjects.Stored | src/Git/Objects/GitObject.cs:52-55 | The store after writing: the compressed serialisation at the object's path. Its contracts are ReadAfterWrite and WriteChangesNothingElse. |
| GitObjects.HashHexOf | src/Git/Objects/GitObject.cs:49-50 | The returned name is 40 lower-case hex digits, and they decode to the SHA-1 of the serialised object. |
| GitObjects.ReadAfterWrite | src/Git/Objects/GitObject.cs:12-58 | Reading the store back under the hash that writing returned gives the same kind and content. |
| GitObjects.WriteChangesNothingElse | src/Git/Objects/GitObject.cs:47-58 | After writing one object, every other hash reads exactly as before. |
| GitObjects.WriteData | src/Git/Objects/GitObject.cs:47-58 | Returns the lower-case hex of the digest. The new store is the old one with the compressed data at that hash's path. |
| GitObjects.Write | src/Git/Objects/GitObject.cs:31-45 | The five stream writes produce the serialised object, and the store holds it under its hash. Reading that hash back gives the object; every other hash reads as before. |
| TreeEntries.Entry.Bytes | src/Git/Objects/Trees/GitTreeObjectEntry.cs:12 | The entry's encoding. Its contracts are EntryBytesLayout, NextEntryOfBytes and ParseConcat. |
| TreeEntries.Entry.HashHexString | src/Git/Objects/Trees/GitTreeObjectEntry.cs:13 | The lower-case hex of the hash. Its contract is HashHexStringDecodes. |
| TreeEntries.EntryBytesLayout | src/Git/Objects/Trees/GitTreeObjectEntry.cs:12 | The encoding is the ASCII mode, one space, the ASCII name, one NUL, then the hash unchanged; the older entry record (src/Git/Objects/GitTreeObjectEntry.cs:7) encodes the same way. Its length is the sum of the mode's and the name's lengths, plus 2, plus the hash's length. |
| TreeEntries.HashHexStringDecodes | src/Git/Objects/Trees/GitTreeObjectEntry.cs:13 | The hex string has twice as many characters as the hash has bytes, all of them 0–9 or a–f, and it decodes back to the hash. |
| TreeEntries.Aggregate | src/Git/Objects/Trees/GitTreeObject.cs:8 | Concatenating the encodings succeeds exactly for a non-empty list and otherwise fails with EmptySequence. |
| TreeEntries.NextEntry | src/Git/Objects/Trees/GitTreeObject.cs:29-36 | One iteration fails only with OutOfRange. Otherwise the cursor strictly increases and stays within the content, so the loop terminates. |
| TreeEntries.NextEntryShape | src/Git/Objects/Trees/GitTreeObject.cs:29-36 | An entry read has a mode without a space and a name without a NUL. Its 20-byte hash sits just before the new cursor. Its encoding is exactly as long as the bytes consumed. |
| TreeEntries.NextEntryOfBytes | src/Git/Objects/Trees/GitTreeObject.cs:29-36 | A well-formed entry's encoding at the cursor is read back as that entry, and the cursor moves just past it. |
| TreeEntries.NextEntryFails | src/Git/Objects/Trees/GitTreeObject.cs:29-33 | A cursor with no space after it, no NUL after the space, or fewer than 20 bytes after the NUL fails. It never yields a short entry. |
| TreeEntries.ParseEntries | src/Git/Objects/Trees/GitTreeObject.cs:21-40 | The loop returns the reference parse ParseEntriesFrom of the content, including its failures. |
| TreeEntries.ParseConcatFrom | src/Git/Objects/Trees/GitTreeObject.cs:27-37 | From any cursor where the concatenated encodings of well-formed entries begin, the parse returns exactly those entries in order. |
| TreeEntries.ParseConcat | src/Git/Objects/Trees/GitTreeObject.cs:21-40 | Round trip: parsing the concatenated encodings of well-formed entries returns those entries. Well-formed means a mode without a space, a name without a NUL, ASCII text and a 20-byte hash. |
| Trees.TreeObject.AsGitObject | src/Git/Objects/Trees/GitTreeObject.cs:5-8 | A tree is a loose object of kind Tree with the tree's content. |
| Trees.FromEntries | src/Git/Objects/Trees/GitTreeObject.cs:7-11 | Building from a list succeeds exactly when the list is non-empty; without a seed for Aggregate it fails with EmptySequence. |
| Trees.OrderByName | src/Git/Objects/Trees/GitTreeObject.cs:10 | `OrderBy(x => x.Name)`. Its contract is FromEntriesOrdersEntries. |
| Trees.FromEntriesOrdersEntries | src/Git/Objects/Trees/GitTreeObject.cs:10 | The exposed entries are sorted by name and are a permutation of the input. They are stable: each class of equal names keeps its input order. |
| Trees.FromEntriesContentInCallerOrder | src/Git/Objects/Trees/GitTreeObject.cs:8 | The content is the encodings in the caller's order: parsing it returns the caller's list, not the sorted one. |
| Trees.ContentDiffersFromSortedEntries | src/Git/Objects/Trees/GitTreeObject.cs:8-10 | For entries named "b" then "a", Entries is ["a", "b"], while the content encodes "b" first. So the content is not the encoding of Entries. |
| Trees.FromContent | src/Git/Objects/Trees/GitTreeObject.cs:13-17 | The byte-array constructor as a function. Its contracts are NewFromContent, ContentRoundTrip and StoreRoundTrip. |
| Trees.NewFromContent | src/Git/Objects/Trees/GitTreeObject.cs:13-17 | Building from bytes keeps them as the content unchanged and exposes the parsed entries sorted by name. |
| Trees.ContentRoundTrip | src/Git/Objects/Trees/GitTreeObject.cs:13-16 | Rebuilding a tree from the content of a tree built from well-formed entries gives the same tree. |
| Trees.StoreRoundTrip | src/Git/Objects/Trees/GitTreeObject.cs:7-17 | Writing a tree to the store, reading it back as a loose object and rebuilding it from the content gives the same tree. |
| LegacyTrees.LegacyTree.Header | src/Git/Objects/GitTreeObject.cs:9 | "tree ", the decimal length of Body and a NUL. Its contracts are BytesIsLooseObject and EmptyTreeFails. |
| LegacyTrees.LegacyTree.Body | src/Git/Objects/GitTreeObject.cs:10 | The seedless Aggregate of the entries' encodings. Its contracts are BytesIsLooseObject and EmptyTreeFails. |
| LegacyTrees.LegacyTree.Bytes | src/Git/Objects/GitTreeObject.cs:11 | The ASCII header followed by Body. Its contracts are BytesIsLooseObject and EmptyTreeFails. |
| LegacyTrees.LegacyTree.HashHexString | src/Git/Objects/GitTreeObject.cs:12-13 | The lower-case hex of the SHA-1 of Bytes. Its contract is BytesIsLooseObject, through Path. |
| LegacyTrees.LegacyTree.Path | src/Git/Objects/GitTreeObject.cs:14 | The object-store path of Bytes. Its contracts are BytesIsLooseObject and EmptyTreeFails. |
| LegacyTrees.Load | src/Git/Objects/GitTreeObject.cs:17-51 | FromHashHexString as a function of the store. Its contracts are FromHashHexString, LoadedEntriesSorted and StoreRoundTrip. |
| LegacyTrees.BytesIsLooseObject | src/Git/Objects/GitTreeObject.cs:9-14 | Header is "tree ", the decimal length of Body and a NUL. Bytes is the loose-object serialisation of a Tree with content Body. Path is where the object store would put that object. |
| LegacyTrees.EmptyTreeFails | src/Git/Objects/GitTreeObject.cs:10 | With no entries, Body, Bytes and Path all fail with EmptySequence. |
| LegacyTrees.FromHashHexString | src/Git/Objects/GitTreeObject.cs:17-51 | The method returns Load's result. Loading skips everything up to the first NUL, runs the parse loop and sorts by name. The loaded entries are sorted. |
| LegacyTrees.LoadedEntriesSorted | src/Git/Objects/GitTreeObject.cs:47-50 | The entries of any loaded tree are sorted by name and are a permutation of the parsed entries, so its Body re-serialises them in sorted order. |
| LegacyTrees.StoreRoundTrip | src/Git/Objects/GitTreeObject.cs:9-49 | Storing the Bytes of a tree whose well-formed entries are already in name order, then loading by its hash, gives the same tree. |
| Sorting.SortBy | src/Git/Objects/Trees/GitTreeObject.cs:10 | The stable sort by key. Its contracts are SortByIsSorted, SortByPermutes, SortByIsStable and SortBySortedIsIdentity. |
| Sorting.SortByIsSorted | src/Git/Objects/Trees/GitTreeObject.cs:10 | For a total-preorder comparer the sorted sequence is ordered by key. |
| Sorting.SortByPermutes | src/Git/Objects/Trees/GitTreeObject.cs:10 | The sorted sequence is a permutation of the input. |
| Sorting.SortByIsStable | src/Git/Objects/Trees/GitTreeObject.cs:16 | Elements with equivalent keys come out in the order they went in. |
| Sorting.SortBySortedIsIdentity | src/Git/Objects/GitTreeObject.cs:49 | Sorting an already sorted sequence leaves it unchanged. |
| Bytes.IndexOf | src/Git/Objects/Trees/GitTreeObject.cs:29-30 | The result is the first index at or after the start holding the byte, or -1 exactly when no such index exists. |
| Bytes.AsciiRoundTrip | src/Git/Objects/Trees/GitTreeObject.cs:31-32 | Decoding the ASCII encoding of an ASCII string gives the string back. |
| Text.NatToStringRoundTrip | src/Git/Objects/GitObject.cs:33 | The length field is a non-empty string of decimal digits that parses back to the length. |
| Text.LowerHex | src/Git/Objects/GitObject.cs:50 | The hex of n bytes has 2n characters, all of them 0–9 or a–f. |
| Text.LowerHexRoundTrip | src/Git/Objects/GitObject.cs:50 | Hex-decoding the lower-case hex of bytes gives the bytes back. |
| Text.IntToStringRoundTrip | src/Git/Objects/Commits/GitCommitObjectAuthorEntry.cs:6 | The decimal Unix seconds parse back to the seconds and contain no space, NUL or newline. |
| Commits.DefaultEntry | src/Git/Objects/Commits/GitCommitObjectAuthorEntry.cs:3-5 | A new entry has the name "burhansavci", the email "burhansavci@gmail.com" and the instant it was created at. |
| Commits.ZoneString | src/Git/Objects/Commits/GitCommitObjectAuthorEntry.cs:7 | `Date.ToString("zzz")`. Its contracts are ZoneStringShape and ZoneHasNoSeparators. |
| Commits.PersonEntry.DateInSeconds | src/Git/Objects/Commits/GitCommitObjectAuthorEntry.cs:6 | The decimal Unix seconds. Its contracts are IntToStringRoundTrip and LineSeconds. |
| Commits.PersonEntry.DateTimeZone | src/Git/Objects/Commits/GitCommitObjectComitterEntry.cs:7 | The zone of the entry's instant. Its contracts are ZoneStringShape and LineZone. |
| Commits.ZoneStringShape | src/Git/Objects/Commits/GitCommitObjectAuthorEntry.cs:7 | For any offset a DateTimeOffset can hold, the zone is "±hh:mm": six characters, a sign, two digits, ':', two digits. It denotes the offset. |
| Commits.ZoneHasNoSeparators | src/Git/Objects/Commits/GitCommitObjectComitterEntry.cs:7 | The zone contains neither a space nor a newline. |
| Commits.FormatLine | src/Git/Objects/Commits/GitCommitObjectAuthorEntry.cs:6-9 | The line shared by both entry records. Its contracts are LinePrefix, LineSeconds, LineZone and LineFields. |
| Commits.AuthorToString | src/Git/Objects/Commits/GitCommitObjectAuthorEntry.cs:9 | The author line. Its contracts are LinePrefix, LineSeconds, LineZone and LineFields with the keyword "author". |
| Commits.CommitterToString | src/Git/Objects/Commits/GitCommitObjectComitterEntry.cs:9 | The committer line. Its contracts are LinePrefix, LineSeconds, LineZone and LineFields with the keyword "committer". |
| Commits.LinePrefix | src/Git/Objects/Commits/GitCommitObjectAuthorEntry.cs:9 | The line opens with the keyword, a space, the name, " <", the email and ">". |
| Commits.LineSeconds | src/Git/Objects/Commits/GitCommitObjectAuthorEntry.cs:6-9 | After the opening comes one space and then exactly the decimal seconds. |
| Commits.LineZone | src/Git/Objects/Commits/GitCommitObjectComitterEntry.cs:7-9 | The zone is the last field, after a single space. |
| Commits.LineFields | src/Git/Objects/Commits/GitCommitObjectAuthorEntry.cs:9 | The fields of an author or committer line read back: the seconds field parses to the Unix seconds and the last six characters to the offset. |
| Commits.NewCommit | src/Git/Objects/Commits/GitCommitObject.cs:8-25 | A new commit keeps the tree hash, the parent hash and the message. Its author and committer are default entries, each at its own instant. |
| Commits.CommitObject.Content | src/Git/Objects/Commits/GitCommitObject.cs:10 | The commit text. Its contract is ContentLines. |
| Commits.CommitObject.Header | src/Git/Objects/Commits/GitCommitObject.cs:11 | "commit ", the decimal length of Content and a NUL. Its contract is BytesIsLooseObject. |
| Commits.CommitObject.Bytes | src/Git/Objects/Commits/GitCommitObject.cs:12 | The ASCII encoding of Header and Content. Its contract is BytesIsLooseObject. |
| Commits.CommitObject.HashHexString | src/Git/Objects/Commits/GitCommitObject.cs:13-14 | The lower-case hex of the SHA-1 of Bytes. Its contract is PathMatchesStore, through Path. |
| Commits.CommitObject.Path | src/Git/Objects/Commits/GitCommitObject.cs:22 | The object-store path. Its contract is PathMatchesStore. |
| Commits.ContentLines | src/Git/Objects/Commits/GitCommitObject.cs:10 | Split at newlines, the content is: the tree line, exactly one parent line, the author line, the committer line, an empty line, then the message's lines. It ends with a newline. |
| Commits.BytesIsLooseObject | src/Git/Objects/Commits/GitCommitObject.cs:11-12 | Bytes is the loose-object serialisation of a Commit whose content is the encoded Content. The header's length is the number of content bytes after the NUL, and Bytes parses back as that object. |
| Commits.PathMatchesStore | src/Git/Objects/Commits/GitCommitObject.cs:22 | The commit's path exists and is where the object store puts the same object. |

## Left out

- `Packfile.Decompress` (src/Git/Packfiles/Packfile.cs:45-83) is left out. It is zlib streaming over a `Stream` position. Its loop counter `i` is never incremented. So the loop does not run at all when ObjectCount is zero or negative; otherwise it ends only at a delta record (break), at the IOException when the stream runs out, or at an exception from zlib.
- Delta records are not modelled. `PackObject` and `DeltaInstruction` only declare records, and no code in the files this model draws on parses or applies them.
- Compression, decompression and SHA-1 are functions passed in `Codecs`. The model knows only what the preconditions above say, and nothing about collisions.
- `Directory.CreateDirectory` (src/Git/Objects/GitObject.cs:54) is left out: the store is a flat map from path to bytes.
- The command-line program (src/Program.cs) is left out: dispatch, console output, directory walking, HTTP ref discovery and upload-pack.
- `DateTimeOffset.Now` becomes the `Commits.Instant` parameters of `Commits.NewCommit`, one for the author and one for the committer.
- `OrderBy` uses .NET's culture-sensitive string comparer. The model is generic in the comparer `le` and assumes only a total preorder. `Sorting.OrdinalLe` is an ordinal comparer that meets the assumption, used for the concrete example.
- Packfiles.ReadSizeEncoding: computes the unbounded sum of the groups. It does not model the Int32 wrap of `byteValue << length`, nor the mod-32 masking of the shift count. From the fifth byte on, the source's value can differ from the model's. It does so only when a group shifted by 28 bits or more has a set bit that lands at bit 31 or above. Every value below 2^31 in its canonical encoding reads the same in both.
- Packfiles.SplitTypeAndSize: works on the unbounded value, so it does not model the Int32 arithmetic of `>>` and `<<` at Packfile.cs:93-97.
- Packfiles.KeepBits: is stated for non-negative values only, the only ones the unbounded reading produces. A negative Int32 is not modelled.
- Commits.ZoneStringShape: requires an offset of at most 14 hours either way. That is the range a `DateTimeOffset` accepts.
- Commits.CommitObject.Header: lengths count Unicode scalar values. .NET counts UTF-16 code units, so the two differ for characters outside the Basic Multilingual Plane.
- The setters of `GitCommitObject.Bytes`, `Hash` and `HashHexString` are never called in the files this model draws on, so the model has no setters.
- The byte sequences a tree is built from are captured by value. The model does not capture aliasing of the C# `byte[]` arrays.
- The `PackObjectType` enum that `PackObjectTypeExtensions` switches on is declared in a file that is not part of this model. The model assumes it has the members of src/Git/Packfiles/ObjectType.cs and uses the one `PackObjectTypes.PackObjectType` datatype for both.
- The object store is a map keyed by the exact path string. The model does not cover path aliasing in a real file system, such as case-insensitive volumes or repeated separators; there two distinct hashes could name the same file.
- Packfiles.EncodeGroupsRoundTrip: holds for every n in the unbounded model. The source's Int32 reading agrees only below 2^31.
- Packfiles.TypeAndSizeRoundTrip: holds for every size in the unbounded model. The source's Int32 reading agrees only for sizes below 2^28.
