/** Commit objects (GitCommitObject) and their author and committer lines
    (GitCommitObjectAuthorEntry, GitCommitObjectComitterEntry).  The clock
    read DateTimeOffset.Now becomes a parameter: Unix seconds and the UTC
    offset in minutes. */
module Commits {
  import opened Results
  import opened Bytes
  import opened Text
  import opened ObjectTypes
  import opened GitObjects

  const DefaultName := "burhansavci"
  const DefaultEmail := "burhansavci@gmail.com"

  /** A DateTimeOffset: an instant and the offset from UTC, in minutes. */
  datatype Instant = Instant(UnixSeconds: int, OffsetMinutes: int)

  /** The two-digit field of the "zzz" format. */
  function Pad2(n: nat): string {
    if n < 10 then "0" + NatToString(n) else NatToString(n)
  }

  /** Date.ToString("zzz"): the sign, then hours and minutes of the offset,
      two digits each, separated by ':'. */
  function ZoneString(offsetMinutes: int): string {
    var a: nat := if offsetMinutes < 0 then -offsetMinutes else offsetMinutes;
    (if offsetMinutes < 0 then "-" else "+") + Pad2(a / 60) + ":" + Pad2(a % 60)
  }

  /** The offset a "zzz" string denotes; the partner of ZoneString. */
  function ParseZone(z: string): int {
    if |z| < 6 then 0
    else
      var magnitude := 60 * ParseDecimal(z[1..3]) + ParseDecimal(z[4..6]);
      if z[0] == '-' then -magnitude else magnitude
  }

  lemma ParseTwoDigits(s: string)
    requires |s| == 2
    ensures ParseDecimal(s) == 10 * DigitValue(s[0]) + DigitValue(s[1])
  {
    assert s[..1][..0] == [];
    assert ParseDecimal(s[..1]) == DigitValue(s[0]);
  }

  lemma Pad2Shape(n: nat)
    requires n < 100
    ensures |Pad2(n)| == 2 && IsDigit(Pad2(n)[0]) && IsDigit(Pad2(n)[1])
    ensures ParseDecimal(Pad2(n)) == n
  {
    var d := [DigitChar(n / 10), DigitChar(n % 10)];
    if n < 10 {
      assert Pad2(n) == d;
    } else {
      assert NatToString(n / 10) == [DigitChar(n / 10)];
      assert Pad2(n) == d;
    }
    ParseTwoDigits(d);
    assert DigitValue(d[0]) == n / 10;
    assert DigitValue(d[1]) == n % 10;
  }

  lemma ZoneLayout(sign: string, h: string, m: string)
    requires |sign| == 1 && |h| == 2 && |m| == 2
    ensures var z := sign + h + ":" + m;
      |z| == 6 && z[0] == sign[0] && z[1..3] == h && z[3] == ':' && z[4..6] == m
  {
    var z := sign + h + ":" + m;
    assert z == [sign[0], h[0], h[1], ':', m[0], m[1]];
  }

  /** For the offsets a DateTimeOffset can hold (at most 14 hours either
      way) the zone is "±hh:mm", six characters, and denotes the offset. */
  lemma ZoneStringShape(offsetMinutes: int)
    requires -840 <= offsetMinutes <= 840
    ensures var z := ZoneString(offsetMinutes);
      && |z| == 6 && (z[0] == '+' || z[0] == '-') && z[3] == ':'
      && IsDigit(z[1]) && IsDigit(z[2]) && IsDigit(z[4]) && IsDigit(z[5])
      && ParseZone(z) == offsetMinutes
  {
    var a: nat := if offsetMinutes < 0 then -offsetMinutes else offsetMinutes;
    var sign := if offsetMinutes < 0 then "-" else "+";
    var h, m := Pad2(a / 60), Pad2(a % 60);
    Pad2Shape(a / 60);
    Pad2Shape(a % 60);
    ZoneLayout(sign, h, m);
    assert ZoneString(offsetMinutes) == sign + h + ":" + m;
  }

  /** The zone contains no separator the commit text uses. */
  lemma ZoneHasNoSeparators(offsetMinutes: int)
    requires -840 <= offsetMinutes <= 840
    ensures ' ' !in ZoneString(offsetMinutes) && '\n' !in ZoneString(offsetMinutes)
  {
    ZoneStringShape(offsetMinutes);
    var z := ZoneString(offsetMinutes);
    assert z == [z[0], z[1], z[2], z[3], z[4], z[5]];
  }

  /** The record both entry types share: a name, an email and the instant
      read when the entry was created. */
  datatype PersonEntry = PersonEntry(Name: string, Email: string, Date: Instant) {

    /** Date.ToUnixTimeSeconds().ToString(). */
    function DateInSeconds(): string {
      IntToString(Date.UnixSeconds)
    }

    function DateTimeZone(): string {
      ZoneString(Date.OffsetMinutes)
    }
  }

  /** The parameterless `new()` of either entry type, at instant `now`. */
  function DefaultEntry(now: Instant): (e: PersonEntry)
    ensures e.Name == DefaultName && e.Email == DefaultEmail && e.Date == now
  {
    PersonEntry(DefaultName, DefaultEmail, now)
  }

  /** "{keyword} {Name} <{Email}> {DateInSeconds} {DateTimeZone}". */
  function FormatLine(keyword: string, e: PersonEntry): string {
    keyword + " " + e.Name + " <" + e.Email + "> " + e.DateInSeconds() + " " + e.DateTimeZone()
  }

  /** GitCommitObjectAuthorEntry.ToString. */
  function AuthorToString(e: PersonEntry): string {
    FormatLine("author", e)
  }

  /** GitCommitObjectComitterEntry.ToString. */
  function CommitterToString(e: PersonEntry): string {
    FormatLine("committer", e)
  }

  /** An entry line splits into its fixed opening and the date fields. */
  lemma LineSplit(keyword: string, name: string, email: string, secs: string, zone: string)
    ensures keyword + " " + name + " <" + email + "> " + secs + " " + zone
         == (keyword + " " + name + " <" + email + ">") + (" " + secs + " " + zone)
  {
  }

  lemma TailFields(l: string, head: string, secs: string, zone: string)
    requires |zone| == 6 && l == head + (" " + secs + " " + zone)
    ensures |l| == |head| + |secs| + 8
    ensures l[..|head|] == head && l[|head|] == ' ' && l[|l| - 7] == ' '
    ensures l[|head| + 1..|l| - 7] == secs && l[|l| - 6..] == zone
  {
    var tail := " " + secs + " " + zone;
    assert l[|head| + 1..|l| - 7] == tail[1..|tail| - 7];
    assert l[|l| - 6..] == tail[|tail| - 6..];
  }

  /** An entry line is its opening followed by the two date fields. */
  lemma LineHeadTail(keyword: string, e: PersonEntry)
    ensures FormatLine(keyword, e)
         == (keyword + " " + e.Name + " <" + e.Email + ">") + (" " + e.DateInSeconds() + " " + e.DateTimeZone())
  {
    LineSplit(keyword, e.Name, e.Email, e.DateInSeconds(), e.DateTimeZone());
  }

  /** An entry line opens with the keyword, the name and the bracketed email. */
  lemma LinePrefix(keyword: string, e: PersonEntry)
    ensures var p := |keyword| + |e.Name| + |e.Email| + 4;
      && |FormatLine(keyword, e)| > p
      && FormatLine(keyword, e)[..p] == keyword + " " + e.Name + " <" + e.Email + ">"
  {
    LineHeadTail(keyword, e);
  }

  lemma ZoneLength(offsetMinutes: int)
    requires -840 <= offsetMinutes <= 840
    ensures |ZoneString(offsetMinutes)| == 6
  {
    ZoneStringShape(offsetMinutes);
  }

  lemma LineZone(keyword: string, e: PersonEntry)
    requires -840 <= e.Date.OffsetMinutes <= 840
    ensures var l := FormatLine(keyword, e);
      |l| >= 7 && l[|l| - 7] == ' ' && l[|l| - 6..] == e.DateTimeZone()
  {
    ZoneLength(e.Date.OffsetMinutes);
    LineHeadTail(keyword, e);
    TailFields(FormatLine(keyword, e), keyword + " " + e.Name + " <" + e.Email + ">",
               e.DateInSeconds(), e.DateTimeZone());
  }

  lemma LineSeconds(keyword: string, e: PersonEntry)
    requires -840 <= e.Date.OffsetMinutes <= 840
    ensures var l, p := FormatLine(keyword, e), |keyword| + |e.Name| + |e.Email| + 4;
      |l| == p + |e.DateInSeconds()| + 8 && l[p] == ' ' && l[p + 1..|l| - 7] == e.DateInSeconds()
  {
    ZoneLength(e.Date.OffsetMinutes);
    LineHeadTail(keyword, e);
    TailFields(FormatLine(keyword, e), keyword + " " + e.Name + " <" + e.Email + ">",
               e.DateInSeconds(), e.DateTimeZone());
  }

  /** The fields of an entry line can be read back: after the opening, one
      space apart, come the decimal Unix seconds and the zone. */
  lemma LineFields(keyword: string, e: PersonEntry)
    requires -840 <= e.Date.OffsetMinutes <= 840
    ensures var l, p := FormatLine(keyword, e), |keyword| + |e.Name| + |e.Email| + 4;
      && |l| == p + |e.DateInSeconds()| + 8
      && l[p] == ' ' && l[|l| - 7] == ' '
      && ParseInt(l[p + 1..|l| - 7]) == e.Date.UnixSeconds
      && ParseZone(l[|l| - 6..]) == e.Date.OffsetMinutes
  {
    ZoneStringShape(e.Date.OffsetMinutes);
    IntToStringRoundTrip(e.Date.UnixSeconds);
    LineZone(keyword, e);
    LineSeconds(keyword, e);
  }

  datatype CommitObject = CommitObject(
    TreeHash: string, ParentHash: string, Message: string,
    Author: PersonEntry, Comitter: PersonEntry)
  {
    /** $"tree {treeHash}\nparent {parentCommitHash}\n{Author}\n{Comitter}\n\n{commitMessage}\n". */
    function Content(): string {
      "tree " + TreeHash + "\n" + "parent " + ParentHash + "\n" + AuthorToString(Author) + "\n"
        + CommitterToString(Comitter) + "\n\n" + Message + "\n"
    }

    /** $"commit {Content.Length}\0". */
    function Header(): string {
      "commit " + NatToString(|Content()|) + "\0"
    }

    function Bytes(): seq<byte> {
      AsciiEncode(Header() + Content())
    }

    function HashHexString(c: Codecs): string {
      LowerHex(c.sha1(Bytes()))
    }

    function Path(c: Codecs): Result<string> {
      PathOf(HashHexString(c))
    }
  }

  /** The constructor: the author and the committer are the default entries,
      each reading the clock on its own. */
  function NewCommit(treeHash: string, parentCommitHash: string, commitMessage: string,
                     authorNow: Instant, committerNow: Instant): (cm: CommitObject)
    ensures cm.Author == DefaultEntry(authorNow) && cm.Comitter == DefaultEntry(committerNow)
    ensures cm.TreeHash == treeHash && cm.ParentHash == parentCommitHash && cm.Message == commitMessage
  {
    CommitObject(treeHash, parentCommitHash, commitMessage, DefaultEntry(authorNow), DefaultEntry(committerNow))
  }

  /** Bytes is the loose-object serialisation of a Commit whose content is
      the encoded Content: the header's length is the number of content
      bytes after the NUL, and the object parses back as that. */
  lemma BytesIsLooseObject(cm: CommitObject)
    ensures cm.Bytes() == Serialize(GitObject(Commit, AsciiEncode(cm.Content())))
    ensures Parse(cm.Bytes()) == Ok(GitObject(Commit, AsciiEncode(cm.Content())))
  {
    var digits := NatToString(|cm.Content()|);
    assert cm.Header() == TypeName(Commit) + " " + digits + "\0";
    AsciiEncodeConcat(cm.Header(), cm.Content());
    ParseSerialize(GitObject(Commit, AsciiEncode(cm.Content())));
  }

  /** The commit is stored where GitObject.Write would store the same object. */
  lemma PathMatchesStore(cm: CommitObject, c: Codecs)
    requires DigestIs20Bytes(c)
    ensures cm.Path(c) == PathOf(HashHexOf(GitObject(Commit, AsciiEncode(cm.Content())), c))
    ensures cm.Path(c).Ok?
  {
    BytesIsLooseObject(cm);
  }

  /** Splitting at '\n': the pieces between newlines, so a string ending in
      '\n' ends with an empty piece. */
  function Lines(s: string): (r: seq<string>)
    ensures |r| >= 1
    decreases |s|
  {
    if s == [] then [""]
    else
      var rest := Lines(s[1..]);
      if s[0] == '\n' then [""] + rest else [[s[0]] + rest[0]] + rest[1..]
  }

  lemma {:induction false} LinesAfter(a: string, b: string)
    requires '\n' !in a
    ensures Lines(a + "\n" + b) == [a] + Lines(b)
    decreases |a|
  {
    if a == [] {
      assert (a + "\n" + b)[1..] == b;
    } else {
      assert (a + "\n" + b)[1..] == a[1..] + "\n" + b;
      LinesAfter(a[1..], b);
      assert [a[0]] + a[1..] == a;
    }
  }

  lemma LineHasNoNewline(keyword: string, e: PersonEntry)
    requires '\n' !in keyword && '\n' !in e.Name && '\n' !in e.Email
    requires -840 <= e.Date.OffsetMinutes <= 840
    ensures '\n' !in FormatLine(keyword, e)
  {
    ZoneHasNoSeparators(e.Date.OffsetMinutes);
    IntToStringRoundTrip(e.Date.UnixSeconds);
  }

  lemma Regroup(th: string, ph: string, a: string, c: string, message: string)
    ensures "tree " + th + "\n" + "parent " + ph + "\n" + a + "\n" + c + "\n\n" + message + "\n"
         == ("tree " + th) + "\n" + ("parent " + ph) + "\n" + a + "\n" + c + "\n\n" + message + "\n"
  {
  }

  lemma Reassociate(t: string, p: string, a: string, c: string, m: string)
    ensures t + "\n" + p + "\n" + a + "\n" + c + "\n\n" + m
         == t + "\n" + (p + "\n" + (a + "\n" + (c + "\n" + ("" + "\n" + m))))
  {
  }

  /** Five newline-free lines, the last empty, then the message. */
  lemma {:induction false} ContentSplit(s: string, t: string, p: string, a: string, c: string, message: string)
    requires '\n' !in t && '\n' !in p && '\n' !in a && '\n' !in c
    requires s == t + "\n" + p + "\n" + a + "\n" + c + "\n\n" + (message + "\n")
    ensures |Lines(s)| >= 6 && Lines(s)[..5] == [t, p, a, c, ""]
    ensures Lines(s)[5..] == Lines(message + "\n")
  {
    var m := message + "\n";
    Reassociate(t, p, a, c, m);
    LinesAfter("", m);
    LinesAfter(c, "" + "\n" + m);
    LinesAfter(a, c + "\n" + ("" + "\n" + m));
    LinesAfter(p, a + "\n" + (c + "\n" + ("" + "\n" + m)));
    LinesAfter(t, p + "\n" + (a + "\n" + (c + "\n" + ("" + "\n" + m))));
    var ls := Lines(m);
    assert Lines(s) == [t] + ([p] + ([a] + ([c] + ([""] + ls))));
    assert Lines(s) == [t, p, a, c, ""] + ls;
  }

  lemma ContentShape(cm: CommitObject)
    ensures cm.Content() == "tree " + cm.TreeHash + "\n" + "parent " + cm.ParentHash + "\n"
      + AuthorToString(cm.Author) + "\n" + CommitterToString(cm.Comitter) + "\n\n" + cm.Message + "\n"
    ensures cm.Content()[|cm.Content()| - 1] == '\n'
  {
  }

  lemma ContentLinesOf(cm: CommitObject)
    requires '\n' !in cm.TreeHash && '\n' !in cm.ParentHash
    requires '\n' !in AuthorToString(cm.Author) && '\n' !in CommitterToString(cm.Comitter)
    ensures var ls := Lines(cm.Content());
      && |ls| >= 6
      && ls[..5] == ["tree " + cm.TreeHash, "parent " + cm.ParentHash,
                     AuthorToString(cm.Author), CommitterToString(cm.Comitter), ""]
      && ls[5..] == Lines(cm.Message + "\n")
  {
    var a, c := AuthorToString(cm.Author), CommitterToString(cm.Comitter);
    ContentShape(cm);
    Regroup(cm.TreeHash, cm.ParentHash, a, c, cm.Message);
    assert cm.Content() == ("tree " + cm.TreeHash) + "\n" + ("parent " + cm.ParentHash) + "\n" + a + "\n" + c
      + "\n\n" + (cm.Message + "\n");
    ContentSplit(cm.Content(), "tree " + cm.TreeHash, "parent " + cm.ParentHash, a, c, cm.Message);
  }

  /** The content is "tree", exactly one "parent", author and committer
      lines, an empty line, then the message and a final newline. */
  lemma ContentLines(cm: CommitObject)
    requires '\n' !in cm.TreeHash && '\n' !in cm.ParentHash
    requires '\n' !in cm.Author.Name && '\n' !in cm.Author.Email
    requires '\n' !in cm.Comitter.Name && '\n' !in cm.Comitter.Email
    requires -840 <= cm.Author.Date.OffsetMinutes <= 840 && -840 <= cm.Comitter.Date.OffsetMinutes <= 840
    ensures var ls := Lines(cm.Content());
      && |ls| >= 6
      && ls[..5] == ["tree " + cm.TreeHash, "parent " + cm.ParentHash,
                     AuthorToString(cm.Author), CommitterToString(cm.Comitter), ""]
      && ls[5..] == Lines(cm.Message + "\n")
    ensures cm.Content()[|cm.Content()| - 1] == '\n'
  {
    LineHasNoNewline("author", cm.Author);
    LineHasNoNewline("committer", cm.Comitter);
    ContentLinesOf(cm);
    ContentShape(cm);
  }
}
