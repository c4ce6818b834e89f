/**
 * The backing file as the store sees it. The file is `None` when it does not
 * exist; otherwise it is its lines in order, each already decoded: `Some(e)`
 * for a line that is a well-formed record, `None` for one that is not (or that
 * is not valid UTF-8). Saving writes one line per entry, and a line
 * written for an entry decodes back to that entry; with the model's integer
 * amounts that round trip always holds.
 */
module Persistence {
  import opened Journal

  type Line = Option<JournalEntry>
  type File = Option<seq<Line>>

  /** The entries of the lines that decode, in order; the other lines are skipped. */
  function Decoded(lines: seq<Line>): (r: seq<JournalEntry>)
    ensures |r| <= |lines|
  {
    if lines == [] then []
    else (if lines[0].Some? then [lines[0].value] else []) + Decoded(lines[1..])
  }

  /** What `load_entries` returns: no file gives no entries. */
  function Loaded(file: File): (r: seq<JournalEntry>)
    ensures file.None? ==> r == []
    ensures file.Some? ==> |r| <= |file.value|
  {
    match file
    case None => []
    case Some(lines) => Decoded(lines)
  }

  /** What `save_entries` writes: one line per entry, in the given order. */
  function Encoded(entries: seq<JournalEntry>): (lines: seq<Line>)
    ensures |lines| == |entries|
    ensures forall i :: 0 <= i < |entries| ==> lines[i] == Some(entries[i])
  {
    seq(|entries|, i requires 0 <= i < |entries| => Some(entries[i]))
  }

  /** Loading keeps line order: decoding distributes over concatenation. */
  lemma {:induction false} DecodedAppend(a: seq<Line>, b: seq<Line>)
    ensures Decoded(a + b) == Decoded(a) + Decoded(b)
  {
    if a == [] {
      assert a + b == b;
    } else {
      assert (a + b)[0] == a[0];
      assert (a + b)[1..] == a[1..] + b;
      DecodedAppend(a[1..], b);
    }
  }

  /** An entry is loaded exactly when some line decodes to it. */
  lemma {:induction false} DecodedMembers(lines: seq<Line>, e: JournalEntry)
    ensures e in Decoded(lines) <==> Some(e) in lines
  {
    if lines != [] {
      DecodedMembers(lines[1..], e);
      assert Some(e) in lines <==> Some(e) == lines[0] || Some(e) in lines[1..];
    }
  }

  /** As many entries are loaded as there are lines that decode. */
  function DecodableCount(lines: seq<Line>): nat {
    if lines == [] then 0 else (if lines[0].Some? then 1 else 0) + DecodableCount(lines[1..])
  }

  lemma {:induction false} DecodedLength(lines: seq<Line>)
    ensures |Decoded(lines)| == DecodableCount(lines)
  {
    if lines != [] {
      DecodedLength(lines[1..]);
    }
  }

  /** A well-formed record followed by a garbage line loads as that one record. */
  lemma MalformedLineSkipped(e: JournalEntry)
    ensures Loaded(Some([Some(e), None])) == [e]
  {
    var lines: seq<Line> := [Some(e), None];
    assert lines[1..] == [None];
    assert lines[1..][1..] == [];
    assert Decoded(lines[1..]) == [];
  }

  /**
   * Round trip: loading what was saved gives back the saved entries, so saving
   * what was loaded from a saved file rewrites it unchanged.
   */
  lemma {:induction false} LoadAfterSave(entries: seq<JournalEntry>)
    ensures Loaded(Some(Encoded(entries))) == entries
    ensures Encoded(Loaded(Some(Encoded(entries)))) == Encoded(entries)
  {
    if entries != [] {
      LoadAfterSave(entries[1..]);
      assert Encoded(entries)[1..] == Encoded(entries[1..]);
    }
  }

  /** `load_entries`: read the file line by line, keeping each line that decodes. */
  method LoadEntries(file: File) returns (entries: seq<JournalEntry>)
    ensures entries == Loaded(file)
  {
    if file.None? {
      return [];
    }
    var lines := file.value;
    entries := [];
    for i := 0 to |lines|
      invariant entries == Decoded(lines[..i])
    {
      assert lines[..i + 1] == lines[..i] + [lines[i]];
      DecodedAppend(lines[..i], [lines[i]]);
      assert [lines[i]][1..] == [];
      if lines[i].Some? {
        entries := entries + [lines[i].value];
      }
    }
    assert lines[..|lines|] == lines;
  }

  /** `save_entries`: truncate the file and write one line per entry. */
  method SaveEntries(entries: seq<JournalEntry>) returns (lines: seq<Line>)
    ensures lines == Encoded(entries)
  {
    lines := [];
    for i := 0 to |entries|
      invariant lines == Encoded(entries[..i])
    {
      lines := lines + [Some(entries[i])];
    }
    assert entries[..|entries|] == entries;
  }
}
