/** Tree entries: the "{mode} {name}\0" ++ hash encoding (GitTreeObjectEntry,
    identical in both snapshots) and the cursor loop that parses a sequence
    of entries back (the same loop in both snapshots' GitTreeObject). */
module TreeEntries {
  import opened Results
  import opened Bytes
  import opened Text

  /** The number of hash bytes the parser takes after each NUL. */
  const HashLength := 20

  datatype Entry = Entry(Mode: string, Name: string, Hash: seq<byte>) {

    /** Encoding.ASCII.GetBytes($"{Mode} {Name}\0").Concat(Hash). */
    function Bytes(): seq<byte> {
      AsciiEncode(Mode + " " + Name + "\0") + Hash
    }

    /** Convert.ToHexString(Hash).ToLower(). */
    function HashHexString(): string {
      LowerHex(Hash)
    }
  }

  /** The sort key of OrderBy(x => x.Name). */
  function NameOf(e: Entry): string {
    e.Name
  }

  /** The entries the parser can read back: the mode has no space, the name
      no NUL, both are ASCII, and the hash is 20 bytes long. */
  predicate WellFormed(e: Entry) {
    IsAscii(e.Mode) && IsAscii(e.Name) && ' ' !in e.Mode && '\0' !in e.Name && |e.Hash| == HashLength
  }

  /** The mode, one space, the name, one NUL, then the hash unchanged. */
  lemma EntryBytesLayout(e: Entry)
    ensures var b, m, n := e.Bytes(), |e.Mode|, |e.Name|;
      && |b| == m + n + 2 + |e.Hash|
      && b[..m] == AsciiEncode(e.Mode)
      && b[m] == SpaceByte
      && b[m + 1..m + 1 + n] == AsciiEncode(e.Name)
      && b[m + 1 + n] == NullByte
      && b[m + 2 + n..] == e.Hash
  {
    var s := e.Mode + " " + e.Name + "\0";
    AsciiEncodeConcat(e.Mode + " " + e.Name, "\0");
    AsciiEncodeConcat(e.Mode + " ", e.Name);
    AsciiEncodeConcat(e.Mode, " ");
  }

  /** Two lower-case hex digits per hash byte, high nibble first, which
      decode back to the hash. */
  lemma HashHexStringDecodes(e: Entry)
    ensures |e.HashHexString()| == 2 * |e.Hash|
    ensures IsLowerHex(e.HashHexString())
    ensures HexDecode(e.HashHexString()) == e.Hash
  {
    LowerHexRoundTrip(e.Hash);
  }

  /** The entry encodings concatenated in list order. */
  function ConcatBytes(es: seq<Entry>): seq<byte>
    decreases |es|
  {
    if es == [] then [] else es[0].Bytes() + ConcatBytes(es[1..])
  }

  /** Select(x => x.Bytes).Aggregate((x, y) => x.Concat(y)): Aggregate without
      a seed throws on an empty list. */
  function Aggregate(es: seq<Entry>): (r: Result<seq<byte>>)
    ensures r.Ok? <==> es != []
    ensures r.Err? ==> r.error == EmptySequence
  {
    if es == [] then Err(EmptySequence) else Ok(ConcatBytes(es))
  }

  function Prepend(es: seq<Entry>, r: Result<seq<Entry>>): Result<seq<Entry>> {
    match r
    case Ok(rest) => Ok(es + rest)
    case Err(e) => Err(e)
  }

  /** One iteration of the parse loop at cursor `i`: the mode up to the next
      space, the name up to the next NUL after it, then 20 hash bytes; the
      cursor moves to nullIndex + 21.  A missing space makes IndexOf's start
      -1, a missing NUL makes a slice end -1, a short hash overruns the
      array: each throws. */
  function NextEntry(c: seq<byte>, i: nat): (r: Result<(Entry, nat)>)
    requires i < |c|
    ensures r.Err? ==> r.error == OutOfRange
    ensures r.Ok? ==> i < r.value.1 <= |c|
  {
    var spaceIndex := IndexOf(c, SpaceByte, i);
    if spaceIndex == -1 then Err(OutOfRange)
    else
      var nullIndex := IndexOf(c, NullByte, spaceIndex);
      if nullIndex == -1 || nullIndex + 1 + HashLength > |c| then Err(OutOfRange)
      else
        var mode := AsciiDecode(c[i..spaceIndex]);
        var name := AsciiDecode(c[spaceIndex + 1..nullIndex]);
        Ok((Entry(mode, name, c[nullIndex + 1..nullIndex + 1 + HashLength]), nullIndex + 1 + HashLength))
  }

  /** What one iteration produces: a mode without a space, a name without a
      NUL, the 20 bytes just before the new cursor as the hash, and an entry
      whose encoding is exactly as long as the bytes consumed. */
  lemma NextEntryShape(c: seq<byte>, i: nat)
    requires i < |c| && NextEntry(c, i).Ok?
    ensures var (e, next) := NextEntry(c, i).value;
      && HashLength < next
      && ' ' !in e.Mode && '\0' !in e.Name
      && e.Hash == c[next - HashLength..next]
      && |e.Bytes()| == next - i
  {
    var spaceIndex := IndexOf(c, SpaceByte, i);
    var nullIndex := IndexOf(c, NullByte, spaceIndex);
    NoSeparatorDecoded(c[i..spaceIndex], SpaceByte);
    NoSeparatorDecoded(c[spaceIndex + 1..nullIndex], NullByte);
    EntryBytesLayout(NextEntry(c, i).value.0);
  }

  lemma NoSeparatorDecoded(bs: seq<byte>, b: byte)
    requires b == SpaceByte || b == NullByte
    requires forall j :: 0 <= j < |bs| ==> bs[j] != b
    ensures b == SpaceByte ==> ' ' !in AsciiDecode(bs)
    ensures b == NullByte ==> '\0' !in AsciiDecode(bs)
  {
    forall j | 0 <= j < |bs| ensures AsciiDecode(bs)[j] == DecodeByte(bs[j]) {
    }
    forall j | 0 <= j < |bs| {
      DecodeByteSeparators(bs[j]);
    }
  }

  lemma PrependConcat(a: seq<Entry>, b: seq<Entry>, r: Result<seq<Entry>>)
    ensures Prepend(a, Prepend(b, r)) == Prepend(a + b, r)
  {
    if r.Ok? {
      assert a + (b + r.value) == (a + b) + r.value;
    }
  }

  /** The entries of `c` from cursor `i` until the cursor reaches the end. */
  function ParseEntriesFrom(c: seq<byte>, i: nat): Result<seq<Entry>>
    requires i <= |c|
    decreases |c| - i
  {
    if i == |c| then Ok([])
    else match NextEntry(c, i)
      case Err(e) => Err(e)
      case Ok((e, next)) => Prepend([e], ParseEntriesFrom(c, next))
  }

  /** One unfolding of ParseEntriesFrom at a cursor inside the content. */
  lemma ParseEntriesStep(c: seq<byte>, i: nat)
    requires i < |c|
    ensures NextEntry(c, i).Err? ==> ParseEntriesFrom(c, i) == Err(OutOfRange)
    ensures NextEntry(c, i).Ok? ==>
      ParseEntriesFrom(c, i) == Prepend([NextEntry(c, i).value.0], ParseEntriesFrom(c, NextEntry(c, i).value.1))
  {
  }

  /** A successful step delivers its entry ahead of the rest of the parse. */
  lemma ParseStepOk(c: seq<byte>, i: nat, e: Entry, next: nat, rest: seq<Entry>)
    requires i < |c| && NextEntry(c, i) == Ok((e, next))
    requires next <= |c| && ParseEntriesFrom(c, next) == Ok(rest)
    ensures ParseEntriesFrom(c, i) == Ok([e] + rest)
  {
    ParseEntriesStep(c, i);
  }

  /** ParseEntries: `while (currentIndex < contentBytes.Length)`, each
      iteration (NextEntry) appending one entry and moving the cursor. */
  method ParseEntries(contentBytes: seq<byte>) returns (r: Result<seq<Entry>>)
    ensures r == ParseEntriesFrom(contentBytes, 0)
  {
    var entries: seq<Entry> := [];
    var currentIndex := 0;
    assert Prepend(entries, ParseEntriesFrom(contentBytes, 0)) == ParseEntriesFrom(contentBytes, 0) by {
      if ParseEntriesFrom(contentBytes, 0).Ok? {
        assert [] + ParseEntriesFrom(contentBytes, 0).value == ParseEntriesFrom(contentBytes, 0).value;
      }
    }
    while currentIndex < |contentBytes|
      invariant 0 <= currentIndex <= |contentBytes|
      invariant ParseEntriesFrom(contentBytes, 0) == Prepend(entries, ParseEntriesFrom(contentBytes, currentIndex))
      decreases |contentBytes| - currentIndex
    {
      ParseEntriesStep(contentBytes, currentIndex);
      var step := NextEntry(contentBytes, currentIndex);
      if step.Err? {
        return Err(step.error);
      }
      var (entry, next) := step.value;
      PrependConcat(entries, [entry], ParseEntriesFrom(contentBytes, next));
      entries := entries + [entry];
      currentIndex := next;
    }
    assert entries + [] == entries;
    return Ok(entries);
  }

  /** Where the two IndexOf calls land on a well-formed entry's encoding. */
  lemma SeparatorsOfBytes(c: seq<byte>, i: nat, e: Entry)
    requires WellFormed(e)
    requires i + |e.Bytes()| <= |c| && c[i..i + |e.Bytes()|] == e.Bytes()
    ensures IndexOf(c, SpaceByte, i) == i + |e.Mode|
    ensures IndexOf(c, NullByte, i + |e.Mode|) == i + |e.Mode| + 1 + |e.Name|
  {
    var b, m, n := e.Bytes(), |e.Mode|, |e.Name|;
    EntryBytesLayout(e);
    assert forall k :: 0 <= k < |b| ==> c[i + k] == b[k];
    forall j | i <= j < i + m ensures c[j] != SpaceByte {
      assert c[j] == AsciiEncode(e.Mode)[j - i];
      EncodeCharSeparators(e.Mode[j - i]);
    }
    IndexOfAt(c, SpaceByte, i, i + m);
    forall j | i + m <= j < i + m + 1 + n ensures c[j] != NullByte {
      if j > i + m {
        assert c[j] == AsciiEncode(e.Name)[j - i - m - 1];
        EncodeCharSeparators(e.Name[j - i - m - 1]);
      }
    }
    IndexOfAt(c, NullByte, i + m, i + m + 1 + n);
  }

  lemma SliceOfSlice(c: seq<byte>, i: nat, j: nat, a: nat, b: nat)
    requires i <= j <= |c| && a <= b <= j - i
    ensures c[i..j][a..b] == c[i + a..i + b]
  {
    assert forall k :: 0 <= k < b - a ==> c[i..j][a..b][k] == c[i + a + k];
  }

  /** Where the mode, the name and the hash of an encoding at the cursor lie. */
  lemma EntrySlices(c: seq<byte>, i: nat, e: Entry)
    requires i + |e.Bytes()| <= |c| && c[i..i + |e.Bytes()|] == e.Bytes()
    ensures var m, n := |e.Mode|, |e.Name|;
      && |e.Bytes()| == m + n + 2 + |e.Hash|
      && c[i..i + m] == AsciiEncode(e.Mode)
      && c[i + m + 1..i + m + 1 + n] == AsciiEncode(e.Name)
      && c[i + m + 2 + n..i + |e.Bytes()|] == e.Hash
  {
    var b, m, n := e.Bytes(), |e.Mode|, |e.Name|;
    EntryBytesLayout(e);
    SliceOfSlice(c, i, i + |b|, 0, m);
    SliceOfSlice(c, i, i + |b|, m + 1, m + 1 + n);
    SliceOfSlice(c, i, i + |b|, m + 2 + n, |b|);
  }

  /** A well-formed entry's encoding at the cursor is read back as that entry. */
  lemma NextEntryOfBytes(c: seq<byte>, i: nat, e: Entry)
    requires WellFormed(e)
    requires i + |e.Bytes()| <= |c| && c[i..i + |e.Bytes()|] == e.Bytes()
    ensures NextEntry(c, i) == Ok((e, i + |e.Bytes()|))
  {
    SeparatorsOfBytes(c, i, e);
    EntrySlices(c, i, e);
    AsciiRoundTrip(e.Mode);
    AsciiRoundTrip(e.Name);
  }

  /** The first encoding sits at the cursor and the others follow it. */
  lemma HeadEntryAt(c: seq<byte>, i: nat, es: seq<Entry>)
    requires es != [] && i <= |c| && c[i..] == ConcatBytes(es)
    ensures i + |es[0].Bytes()| <= |c|
    ensures c[i..i + |es[0].Bytes()|] == es[0].Bytes()
    ensures c[i + |es[0].Bytes()|..] == ConcatBytes(es[1..])
  {
    var n := |es[0].Bytes()|;
    assert c[i..] == es[0].Bytes() + ConcatBytes(es[1..]);
    assert c[i..i + n] == c[i..][..n];
    assert c[i + n..] == c[i..][n..];
  }

  lemma HeadAndTail(es: seq<Entry>)
    requires es != []
    ensures es == [es[0]] + es[1..]
  {
  }

  /** Parsing the concatenated encodings of well-formed entries, wherever
      they start, returns exactly those entries in that order. */
  lemma {:induction false} ParseConcatFrom(c: seq<byte>, i: nat, es: seq<Entry>)
    requires forall k :: 0 <= k < |es| ==> WellFormed(es[k])
    requires i <= |c| && c[i..] == ConcatBytes(es)
    ensures ParseEntriesFrom(c, i) == Ok(es)
    decreases |es|
  {
    if es == [] {
      assert |c[i..]| == 0;
    } else {
      var e, n, tail: seq<Entry> := es[0], |es[0].Bytes()|, es[1..];
      var next: nat := i + n;
      assert next <= |c| && ParseEntriesFrom(c, next) == Ok(tail) by {
        HeadEntryAt(c, i, es);
        ParseConcatFrom(c, next, tail);
      }
      assert NextEntry(c, i) == Ok((e, next)) by {
        HeadEntryAt(c, i, es);
        NextEntryOfBytes(c, i, e);
      }
      ParseStepOk(c, i, e, next, tail);
      HeadAndTail(es);
    }
  }

  /** Round trip: parse(concat of encodings) == entries. */
  lemma ParseConcat(es: seq<Entry>)
    requires forall k :: 0 <= k < |es| ==> WellFormed(es[k])
    ensures ParseEntriesFrom(ConcatBytes(es), 0) == Ok(es)
  {
    ParseConcatFrom(ConcatBytes(es), 0, es);
  }

  /** The three ways an entry fails rather than coming back short. */
  lemma NextEntryFails(c: seq<byte>, i: nat)
    requires i < |c|
    requires || (forall j :: i <= j < |c| ==> c[j] != SpaceByte)
             || (exists k :: i <= k < |c| && c[k] == SpaceByte
                   && (forall j :: i <= j < k ==> c[j] != SpaceByte)
                   && (forall j :: k <= j < |c| ==> c[j] != NullByte))
             || (exists k, z :: i <= k <= z < |c| && c[z] == NullByte
                   && (forall j :: i <= j < k ==> c[j] != SpaceByte) && c[k] == SpaceByte
                   && (forall j :: k <= j < z ==> c[j] != NullByte)
                   && z + 1 + HashLength > |c|)
    ensures NextEntry(c, i) == Err(OutOfRange)
  {
    if exists k, z :: i <= k <= z < |c| && c[z] == NullByte
         && (forall j :: i <= j < k ==> c[j] != SpaceByte) && c[k] == SpaceByte
         && (forall j :: k <= j < z ==> c[j] != NullByte)
         && z + 1 + HashLength > |c| {
      var k, z :| i <= k <= z < |c| && c[z] == NullByte
         && (forall j :: i <= j < k ==> c[j] != SpaceByte) && c[k] == SpaceByte
         && (forall j :: k <= j < z ==> c[j] != NullByte)
         && z + 1 + HashLength > |c|;
      IndexOfAt(c, SpaceByte, i, k);
      IndexOfAt(c, NullByte, k, z);
    } else if exists k :: i <= k < |c| && c[k] == SpaceByte
                   && (forall j :: i <= j < k ==> c[j] != SpaceByte)
                   && (forall j :: k <= j < |c| ==> c[j] != NullByte) {
      var k :| i <= k < |c| && c[k] == SpaceByte
                   && (forall j :: i <= j < k ==> c[j] != SpaceByte)
                   && (forall j :: k <= j < |c| ==> c[j] != NullByte);
      IndexOfAt(c, SpaceByte, i, k);
    }
  }
}
