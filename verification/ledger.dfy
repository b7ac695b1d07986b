/** The MD5 ledger (`checksums.md5`): writeToMD5File (backupDirs.py:18-21)
    appends one line `<digest> *.<path>` per file, and never rewrites what is
    already there. The file's text is passed in and the new text returned. */
module Ledger {
  import opened PyLib

  /** One `(hexdigest, path)` pair of the list getHashofDirs returns. */
  datatype LedgerEntry = LedgerEntry(digest: string, path: string)

  /** `"{} *.{}\n".format(md5hash[0], md5hash[1])` */
  function LedgerLine(e: LedgerEntry): string {
    e.digest + " *." + e.path + "\n"
  }

  function LedgerText(entries: seq<LedgerEntry>): string {
    if entries == [] then "" else LedgerLine(entries[0]) + LedgerText(entries[1..])
  }

  /** writeToMD5File: the loop that appends one line per entry, in order. */
  method WriteToMD5File(existing: string, entries: seq<LedgerEntry>) returns (content: string)
    ensures content == existing + LedgerText(entries)
    ensures |content| >= |existing| && content[..|existing|] == existing
  {
    content := existing;
    for i := 0 to |entries|
      invariant content + LedgerText(entries[i..]) == existing + LedgerText(entries)
    {
      assert entries[i..] == [entries[i]] + entries[i + 1..];
      content := content + LedgerLine(entries[i]);
    }
    assert content + LedgerText(entries[|entries|..]) == content;
  }

  lemma {:induction false} LedgerTextAppend(a: seq<LedgerEntry>, b: seq<LedgerEntry>)
    ensures LedgerText(a + b) == LedgerText(a) + LedgerText(b)
  {
    if a != [] {
      LedgerTextAppend(a[1..], b);
      assert (a + b)[1..] == a[1..] + b;
    } else {
      assert a + b == b;
    }
  }

  // ---------------------------------------------------------------------
  // Reading a ledger back

  /** An entry whose line can be read back: the digest holds no space and
      neither part holds a line break. Hex digests always qualify. */
  predicate Readable(e: LedgerEntry) {
    ' ' !in e.digest && '\n' !in e.digest && '\n' !in e.path
  }

  function ParseLine(line: string): Option<LedgerEntry> {
    if ' ' !in line then None
    else
      var k := IndexOf(line, ' ');
      if k + 3 <= |line| && line[k + 1] == '*' && line[k + 2] == '.'
      then Some(LedgerEntry(line[..k], line[k + 3..]))
      else None
  }

  function ParseLedger(text: string): Option<seq<LedgerEntry>>
    decreases |text|
  {
    if text == [] then Some([])
    else if '\n' !in text then None
    else
      var k := IndexOf(text, '\n');
      match ParseLine(text[..k])
      case None => None
      case Some(e) =>
        match ParseLedger(text[k + 1..])
        case None => None
        case Some(rest) => Some([e] + rest)
  }

  lemma IndexOfFirst(s: string, c: char, k: nat)
    requires k < |s| && s[k] == c && c !in s[..k]
    ensures IndexOf(s, c) == k
  {
  }

  /** ParseLedger unfolded once, at the first line break `k`. */
  lemma ParseLedgerAt(text: string, k: nat)
    requires k < |text| && text[k] == '\n' && '\n' !in text[..k]
    ensures ParseLedger(text) ==
              match ParseLine(text[..k])
              case None => None
              case Some(e) =>
                match ParseLedger(text[k + 1..])
                case None => None
                case Some(rest) => Some([e] + rest)
  {
    IndexOfFirst(text, '\n', k);
  }

  lemma ParseLineOf(e: LedgerEntry)
    requires Readable(e)
    ensures ParseLine(e.digest + " *." + e.path) == Some(e)
  {
    var line := e.digest + " *." + e.path;
    assert line[..|e.digest|] == e.digest;
    IndexOfFirst(line, ' ', |e.digest|);
    assert line[|e.digest| + 3..] == e.path;
  }

  lemma ConsAppend(s: seq<LedgerEntry>, more: seq<LedgerEntry>)
    requires s != []
    ensures [s[0]] + (s[1..] + more) == s + more
  {
    assert s == [s[0]] + s[1..];
  }

  /** A ledger that starts with the line of a readable entry reads as that
      entry followed by whatever the rest reads as. */
  lemma ParseAfterLine(e: LedgerEntry, tail: string)
    requires Readable(e)
    ensures ParseLedger(LedgerLine(e) + tail) ==
              if ParseLedger(tail).Some? then Some([e] + ParseLedger(tail).value) else None
  {
    var body := e.digest + " *." + e.path;
    var text := LedgerLine(e) + tail;
    assert text == body + "\n" + tail;
    assert text[..|body|] == body;
    assert text[|body| + 1..] == tail;
    ParseLineOf(e);
    ParseLedgerAt(text, |body|);
  }

  /** The ledger lines written for readable entries read back as exactly those
      entries, in order, before whatever follows them. */
  lemma {:induction false} ParseLedgerText(entries: seq<LedgerEntry>, rest: string, more: seq<LedgerEntry>)
    requires forall i :: 0 <= i < |entries| ==> Readable(entries[i])
    requires ParseLedger(rest) == Some(more)
    ensures ParseLedger(LedgerText(entries) + rest) == Some(entries + more)
  {
    if entries == [] {
      assert LedgerText(entries) + rest == rest;
      assert entries + more == more;
    } else {
      var tail := LedgerText(entries[1..]) + rest;
      assert LedgerText(entries) + rest == LedgerLine(entries[0]) + tail;
      ParseLedgerText(entries[1..], rest, more);
      ParseAfterLine(entries[0], tail);
      ConsAppend(entries, more);
    }
  }

  /** What writeToMD5File writes reads back as the entries it was given. */
  lemma LedgerRoundTrip(entries: seq<LedgerEntry>)
    requires forall i :: 0 <= i < |entries| ==> Readable(entries[i])
    ensures ParseLedger(LedgerText(entries)) == Some(entries)
  {
    ParseLedgerText(entries, "", []);
    assert LedgerText(entries) + "" == LedgerText(entries);
    assert entries + [] == entries;
  }

  /** Text appended after a line break leaves the first line where it was. */
  lemma ParseAppendAt(existing: string, t: string, k: nat)
    requires k < |existing| && existing[k] == '\n' && '\n' !in existing[..k]
    ensures ParseLedger(existing + t) ==
              match ParseLine(existing[..k])
              case None => None
              case Some(e) =>
                match ParseLedger(existing[k + 1..] + t)
                case None => None
                case Some(rest) => Some([e] + rest)
  {
    var text := existing + t;
    assert text[..k] == existing[..k];
    assert text[k + 1..] == existing[k + 1..] + t;
    ParseLedgerAt(text, k);
  }

  /** Appending never disturbs a ledger: the entries already in a readable
      file stay, and the new ones follow them. */
  lemma {:induction false} AppendKeepsEntries(existing: string, earlier: seq<LedgerEntry>, entries: seq<LedgerEntry>)
    requires ParseLedger(existing) == Some(earlier)
    requires forall i :: 0 <= i < |entries| ==> Readable(entries[i])
    ensures ParseLedger(existing + LedgerText(entries)) == Some(earlier + entries)
    decreases |existing|
  {
    var t := LedgerText(entries);
    if existing == [] {
      LedgerRoundTrip(entries);
      assert existing + t == t;
      assert earlier + entries == entries;
    } else {
      var k := IndexOf(existing, '\n');
      ParseLedgerAt(existing, k);
      var e := ParseLine(existing[..k]).value;
      var more := ParseLedger(existing[k + 1..]).value;
      AppendKeepsEntries(existing[k + 1..], more, entries);
      assert ParseLedger(existing[k + 1..] + t) == Some(more + entries);
      ParseAppendAt(existing, t, k);
      assert ParseLedger(existing + t) == Some([e] + (more + entries));
      assert earlier == [e] + more;
      AssocCons(e, more, entries);
    }
  }

  lemma AssocCons(e: LedgerEntry, more: seq<LedgerEntry>, entries: seq<LedgerEntry>)
    ensures [e] + (more + entries) == ([e] + more) + entries
  {
  }
}
