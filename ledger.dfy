/**
 * The five menu operations of the journal program. Each one loads the whole
 * backing file, works on the loaded sequence, and (when it changes something)
 * rewrites the whole file; nothing is kept in memory between operations.
 */
module Ledger {
  import opened Journal
  import opened IdInput
  import opened Store
  import opened Persistence
  import opened Report

  /**
   * Text that does not parse as a `u32` selects id 0, which no entry of a
   * well-formed store carries: update and delete report not-found.
   */
  lemma BadIdNotFound(entries: seq<JournalEntry>, idText: string)
    requires WellFormed(entries) && ParseU32(idText).None?
    ensures FindActive(entries, RequestedId(idText)).None?
  {
  }

  /** The journal's backing file. */
  class JournalFile {
    var file: File

    constructor (initial: File)
      ensures file == initial
    {
      file := initial;
    }

    /**
     * `create_entry`: append an active entry with the next id and total
     * debt + credit, then save. When the next id overflows `u32` the program
     * panics before saving, and the file is left as it was.
     */
    method CreateEntry(input: EntryInput) returns (created: Option<JournalEntry>)
      modifies this
      ensures NextId(Loaded(old(file))).None? ==> created.None? && file == old(file)
      ensures NextId(Loaded(old(file))).Some? ==>
                var e := NewEntry(NextId(Loaded(old(file))).value, input);
                created == Some(e) && file == Some(Encoded(Loaded(old(file)) + [e]))
      ensures created.Some? ==> Loaded(file) == Loaded(old(file)) + [created.value]
      ensures WellFormed(Loaded(old(file))) ==> WellFormed(Loaded(file))
    {
      var entries := LoadEntries(file);
      var next := NextId(entries);
      if next.None? {
        return None;
      }
      var entry := NewEntry(next.value, input);
      entries := entries + [entry];
      var lines := SaveEntries(entries);
      file := Some(lines);
      LoadAfterSave(entries);
      if WellFormed(Loaded(old(file))) {
        CreateKeepsWellFormed(Loaded(old(file)), input);
      }
      created := Some(entry);
    }

    /** `read_entries`: the active entries, in file order. */
    method ReadEntries() returns (shown: seq<JournalEntry>)
      ensures shown == Active(Loaded(file))
    {
      var entries := LoadEntries(file);
      shown := Active(entries);
    }

    /**
     * `update_entry`: find the first active entry with the id typed in (its
     * trimmed text parsed as `u32`, or 0 if it does not parse), overwrite its
     * editable fields in place and save; when there is none, report it and
     * leave the file untouched.
     */
    method UpdateEntry(idText: string, edit: EntryEdit) returns (found: bool)
      modifies this
      ensures found == FindActive(Loaded(old(file)), RequestedId(idText)).Some?
      ensures found ==> file == Some(Encoded(Updated(Loaded(old(file)), RequestedId(idText), edit)))
      ensures !found ==> file == old(file)
      ensures WellFormed(Loaded(old(file))) ==> WellFormed(Loaded(file))
    {
      var entries := LoadEntries(file);
      var id := RequestedId(idText);
      var pos := FindActive(entries, id);
      found := pos.Some?;
      if pos.Some? {
        var p := pos.value;
        var entry := Apply(entries[p], edit);
        entries := entries[p := entry];
        assert entries == Updated(Loaded(old(file)), id, edit);
        var lines := SaveEntries(entries);
        file := Some(lines);
        LoadAfterSave(entries);
        if WellFormed(Loaded(old(file))) {
          UpdateKeepsWellFormed(Loaded(old(file)), id, edit);
        }
      }
    }

    /**
     * `delete_entry`: find the first active entry with the id typed in (its
     * trimmed text parsed as `u32`, or 0 if it does not parse), flag it "yes"
     * in place and save; when there is none, report it and leave the file
     * untouched.
     */
    method DeleteEntry(idText: string) returns (found: bool)
      modifies this
      ensures found == FindActive(Loaded(old(file)), RequestedId(idText)).Some?
      ensures found ==> file == Some(Encoded(Deleted(Loaded(old(file)), RequestedId(idText))))
      ensures !found ==> file == old(file)
      ensures WellFormed(Loaded(old(file))) ==> WellFormed(Loaded(file))
    {
      var entries := LoadEntries(file);
      var id := RequestedId(idText);
      var pos := FindActive(entries, id);
      found := pos.Some?;
      if pos.Some? {
        var p := pos.value;
        entries := entries[p := entries[p].(isDeleted := YES)];
        assert entries == Deleted(Loaded(old(file)), id);
        var lines := SaveEntries(entries);
        file := Some(lines);
        LoadAfterSave(entries);
        if WellFormed(Loaded(old(file))) {
          DeleteKeepsWellFormed(Loaded(old(file)), id);
        }
      }
    }

    /** `show_report`: the rows and the grand total over the active entries. */
    method ShowReport() returns (rows: seq<ReportRow>, total: int)
      ensures rows == Rows(Active(Loaded(file)))
      ensures total == NetSum(Active(Loaded(file)))
    {
      var entries := LoadEntries(file);
      rows, total := RunningReport(entries);
    }
  }
}
