/**
 The submission record of contact_form.php, the name of the file it is
 stored in, and the block appended to the summary file.
 */
module Submission {
  import opened Bytes

  /** One accepted contact-form entry. The clock renderings, the client
      address and the user agent are opaque inputs of the request. */
  datatype Submission = Submission(
    timestamp: Bytes,   // date('Y-m-d H:i:s')
    date: Bytes,        // date('d/m/Y H:i:s')
    ipAddress: Bytes,   // REMOTE_ADDR, stored as received
    userAgent: Bytes,   // HTTP_USER_AGENT, stored as received
    name: Bytes,
    email: Bytes,
    message: Bytes,
    status: string)

  /** Every new record starts in this state; nothing changes it later. */
  const InitialStatus: string := "new"

  const DataDir: Bytes := Ascii("contact_submissions")

  const SummaryPath: Bytes := DataDir + Ascii("/submissions_summary.txt")

  /** `$dataDir . '/submission_' . <stamp> . '_' . <unique id> . '.json'`. */
  function RecordFileName(fileStamp: Bytes, uniqueId: Bytes): (path: Bytes)
    ensures |path| == |fileStamp| + |uniqueId| + 37
  {
    DataDir + Ascii("/submission_") + fileStamp + Ascii("_") + uniqueId + Ascii(".json")
  }

  /** Two record names with stamps of equal length (the stamp format is
      fixed-width) coincide exactly when stamp and unique id both do: a
      fresh unique id never overwrites an earlier record. */
  lemma RecordFileNameInjective(s1: Bytes, u1: Bytes, s2: Bytes, u2: Bytes)
    requires |s1| == |s2|
    ensures RecordFileName(s1, u1) == RecordFileName(s2, u2) <==> s1 == s2 && u1 == u2
  {
    var p1 := RecordFileName(s1, u1);
    var p2 := RecordFileName(s2, u2);
    var k := |DataDir + Ascii("/submission_")|;
    if p1 == p2 {
      assert k == 31;
      assert p1[k..k + |s1|] == s1;
      assert p2[k..k + |s2|] == s2;
      assert |u1| == |u2|;
      assert p1[k + |s1| + 1..k + |s1| + 1 + |u1|] == u1;
      assert p2[k + |s2| + 1..k + |s2| + 1 + |u2|] == u2;
    }
  }

  /** The record file never lands on the summary file: the two paths
      part at the byte after `contact_submissions/submission`, which is
      `_` in a record name and `s` in the summary path. */
  lemma RecordNeverSummary(fileStamp: Bytes, uniqueId: Bytes)
    ensures RecordFileName(fileStamp, uniqueId) != SummaryPath
  {
    var p := RecordFileName(fileStamp, uniqueId);
    assert p[30] == '_' as byte;
    assert SummaryPath[30] == 's' as byte;
  }

  const Dash: byte := 0x2D
  const Newline: byte := 0x0A

  /** The separator line: `str_repeat('-', 50)`. */
  const Separator: Bytes := Repeat(Dash, 50)

  /** `sprintf("[%s] %s (%s) - %s\n%s\n%s\n\n", date, name, email, ip,
      message, separator)`. */
  function SummaryEntry(date: Bytes, name: Bytes, email: Bytes, ip: Bytes, message: Bytes): (e: Bytes)
    ensures |e| == |date| + |name| + |email| + |ip| + |message| + 63
    ensures e[0] == '[' as byte && e[|e| - 2..] == [Newline, Newline]
  {
    SummaryHeader(date, name, email, ip) + SummaryBody(message)
  }

  /** The first line of a summary block, without its newline. */
  function SummaryHeader(date: Bytes, name: Bytes, email: Bytes, ip: Bytes): Bytes
  {
    Ascii("[") + date + Ascii("] ") + name + Ascii(" (") + email + Ascii(") - ") + ip
  }

  /** The rest of a summary block: the message between two newlines, the
      separator and a blank line. */
  function SummaryBody(message: Bytes): Bytes
  {
    [Newline] + message + [Newline] + Separator + [Newline, Newline]
  }

  /** Where each piece of a summary block sits: a header line
      `[date] name (email) - ip`, the message on its own, then fifty dashes
      and a blank line. The block is 63 bytes longer than its fields. */
  lemma SummaryEntryLayout(date: Bytes, name: Bytes, email: Bytes, ip: Bytes, message: Bytes)
    ensures var e := SummaryEntry(date, name, email, ip, message);
      var n0 := 1 + |date| + 2;
      var e0 := n0 + |name| + 2;
      var i0 := e0 + |email| + 4;
      var m0 := i0 + |ip| + 1;
      var d0 := m0 + |message| + 1;
      && |e| == |date| + |name| + |email| + |ip| + |message| + 63
      && e[0] == '[' as byte
      && e[1..1 + |date|] == date
      && e[1 + |date|..n0] == Ascii("] ")
      && e[n0..n0 + |name|] == name
      && e[n0 + |name|..e0] == Ascii(" (")
      && e[e0..e0 + |email|] == email
      && e[e0 + |email|..i0] == Ascii(") - ")
      && e[i0..i0 + |ip|] == ip
      && e[i0 + |ip|] == Newline
      && e[m0..m0 + |message|] == message
      && e[m0 + |message|] == Newline
      && (forall k | d0 <= k < d0 + 50 :: e[k] == Dash)
      && e[|e| - 2..] == [Newline, Newline]
  {
    EntryHeaderPart(date, name, email, ip, message);
    EntryBodyPart(date, name, email, ip, message);
  }

  /** The header fields, read inside the whole block. */
  lemma EntryHeaderPart(date: Bytes, name: Bytes, email: Bytes, ip: Bytes, message: Bytes)
    ensures var e := SummaryEntry(date, name, email, ip, message);
      var n0 := 1 + |date| + 2;
      var e0 := n0 + |name| + 2;
      var i0 := e0 + |email| + 4;
      && |e| == |date| + |name| + |email| + |ip| + |message| + 63
      && e[0] == '[' as byte
      && e[1..1 + |date|] == date
      && e[1 + |date|..n0] == Ascii("] ")
      && e[n0..n0 + |name|] == name
      && e[n0 + |name|..e0] == Ascii(" (")
      && e[e0..e0 + |email|] == email
      && e[e0 + |email|..i0] == Ascii(") - ")
      && e[i0..i0 + |ip|] == ip
  {
    var h := SummaryHeader(date, name, email, ip);
    var t := SummaryBody(message);
    var e := h + t;
    HeaderLayout(date, name, email, ip);
    BodyLayout(message);
    SliceOfPrefix(e, h, 1, 1 + |date|);
    SliceOfPrefix(e, h, 1 + |date|, 3 + |date|);
    SliceOfPrefix(e, h, 3 + |date|, 3 + |date| + |name|);
    SliceOfPrefix(e, h, 3 + |date| + |name|, 5 + |date| + |name|);
    SliceOfPrefix(e, h, 5 + |date| + |name|, 5 + |date| + |name| + |email|);
    SliceOfPrefix(e, h, 5 + |date| + |name| + |email|, 9 + |date| + |name| + |email|);
    SliceOfPrefix(e, h, 9 + |date| + |name| + |email|, |h|);
    assert e[0] == h[0];
  }

  /** The message, the separator and the blank line, read inside the whole
      block. */
  lemma EntryBodyPart(date: Bytes, name: Bytes, email: Bytes, ip: Bytes, message: Bytes)
    ensures var e := SummaryEntry(date, name, email, ip, message);
      var m0 := |date| + |name| + |email| + |ip| + 10;
      var d0 := m0 + |message| + 1;
      && |e| == m0 + |message| + 53
      && e[m0 - 1] == Newline
      && e[m0..m0 + |message|] == message
      && e[m0 + |message|] == Newline
      && (forall k | d0 <= k < d0 + 50 :: e[k] == Dash)
      && e[|e| - 2..] == [Newline, Newline]
  {
    var h := SummaryHeader(date, name, email, ip);
    var t := SummaryBody(message);
    var e := h + t;
    HeaderLayout(date, name, email, ip);
    BodyLayout(message);
    SliceOfSuffix(h, t, 1, 1 + |message|);
    SliceOfSuffix(h, t, |t| - 2, |t|);
    assert e[|h|] == t[0];
    assert e[|h| + 1 + |message|] == t[1 + |message|];
    assert forall k | |h| + 2 + |message| <= k < |h| + 52 + |message| :: e[k] == t[k - |h|];
  }

  /** Where each field of the header line sits. */
  lemma HeaderLayout(date: Bytes, name: Bytes, email: Bytes, ip: Bytes)
    ensures var h := SummaryHeader(date, name, email, ip);
      var n0 := 3 + |date|;
      var e0 := n0 + |name| + 2;
      var i0 := e0 + |email| + 4;
      && |h| == i0 + |ip|
      && h[0] == '[' as byte
      && h[1..1 + |date|] == date
      && h[1 + |date|..n0] == Ascii("] ")
      && h[n0..n0 + |name|] == name
      && h[n0 + |name|..e0] == Ascii(" (")
      && h[e0..e0 + |email|] == email
      && h[e0 + |email|..i0] == Ascii(") - ")
      && h[i0..] == ip
  {
    var p1 := Ascii("[") + date;
    var p2 := p1 + Ascii("] ");
    var p3 := p2 + name;
    var p4 := p3 + Ascii(" (");
    var p5 := p4 + email;
    var p6 := p5 + Ascii(") - ");
    var h := p6 + ip;
    AppendParts(p1, Ascii("["), date);
    AppendParts(p2, p1, Ascii("] "));
    AppendParts(p3, p2, name);
    AppendParts(p4, p3, Ascii(" ("));
    AppendParts(p5, p4, email);
    AppendParts(p6, p5, Ascii(") - "));
    AppendParts(h, p6, ip);
    PrefixOfPrefix(h, p6, p5);
    PrefixOfPrefix(h, p5, p4);
    PrefixOfPrefix(h, p4, p3);
    PrefixOfPrefix(h, p3, p2);
    PrefixOfPrefix(h, p2, p1);
    SliceOfPrefix(h, p1, 1, |p1|);
    SliceOfPrefix(h, p2, |p1|, |p2|);
    SliceOfPrefix(h, p3, |p2|, |p3|);
    SliceOfPrefix(h, p4, |p3|, |p4|);
    SliceOfPrefix(h, p5, |p4|, |p5|);
    SliceOfPrefix(h, p6, |p5|, |p6|);
    assert h[0] == p1[0];
  }

  /** Where the message, the separator and the final blank line sit. */
  lemma BodyLayout(message: Bytes)
    ensures var t := SummaryBody(message);
      && |t| == |message| + 54
      && t[0] == Newline
      && t[1..1 + |message|] == message
      && t[1 + |message|] == Newline
      && (forall k | 2 + |message| <= k < 52 + |message| :: t[k] == Dash)
      && t[|t| - 2..] == [Newline, Newline]
  {
    var t := SummaryBody(message);
    var q := [Newline] + message + [Newline];
    assert t == q + Separator + [Newline, Newline];
    assert t[1..1 + |message|] == q[1..1 + |message|];
    assert forall k | 2 + |message| <= k < 52 + |message| :: t[k] == Separator[k - |q|];
  }

  /** `c == a + b` splits back into `a` and `b`. */
  lemma AppendParts(c: Bytes, a: Bytes, b: Bytes)
    requires c == a + b
    ensures c[..|a|] == a && c[|a|..] == b
  {
  }

  lemma PrefixOfPrefix(e: Bytes, p: Bytes, q: Bytes)
    requires |p| <= |e| && e[..|p|] == p
    requires |q| <= |p| && p[..|q|] == q
    ensures e[..|q|] == q
  {
    assert e[..|q|] == e[..|p|][..|q|];
  }

  lemma SliceOfSuffix(h: Bytes, t: Bytes, i: nat, j: nat)
    requires i <= j <= |t|
    ensures (h + t)[|h| + i..|h| + j] == t[i..j]
  {
  }

  lemma SliceOfPrefix(e: Bytes, p: Bytes, i: nat, j: nat)
    requires |p| <= |e| && e[..|p|] == p
    requires i <= j <= |p|
    ensures e[i..j] == p[i..j]
  {
    assert forall k | 0 <= k < j - i :: e[i..j][k] == e[..|p|][i + k] == p[i..j][k];
  }
}
