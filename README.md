# Journal-entry store and running-balance report

A Dafny model of the core of a single-user command-line ledger, written in Rust. The program keeps
journal entries in a line-per-record text file. Each menu action loads the whole file, works on the
loaded vector of `JournalEntry` records and, when something changed, rewrites the whole file.

The model has six modules, one per part of the program:

- `Journal` (`entry.dfy`): the `JournalEntry` record. It also holds the values the prompts collect
  for a create (`EntryInput`) and for an update (`EntryEdit`, where `None` means "left blank, keep
  the current value"). `NewEntry` is the record a create builds. `Apply` is the record an update
  writes back.
- `IdInput` (`id_input.dfy`): how the typed id becomes the id that update and delete look for.
  This is Rust's `parse::<u32>()`, and text that does not parse becomes 0.
- `Store` (`store.dfy`): the operations on the loaded sequence. They are the next id (`NextId`), the
  first-active-match search (`FindActive`), soft delete (`Deleted`), update (`Updated`) and the active
  view (`Active`). The module also holds the invariants these keep (`WellFormed`).
- `Persistence` (`persistence.dfy`): the backing file, the loop that loads it (`LoadEntries`) and the
  loop that saves it (`SaveEntries`).
- `Report` (`report.dfy`): the report loop (`RunningReport`) with its running total.
- `Ledger` (`ledger.dfy`): the class `JournalFile`. Its `file` field is the backing file. Its methods
  are the five menu actions. Each method loads the file into a local sequence. Create changes that
  sequence and always saves it (unless the next id overflows). Update and delete change it in place
  and save it only when they find an entry. Read and report never save.

Deliberate abstractions:

- Amounts are `int` (cents), so `total = debt + credit` and the running sums are exact.
- Dates are an opaque `(year, month, day)` value.
- The file is `None` when it does not exist. Otherwise it is the sequence of its lines, each already
  decoded: `Some(entry)` or `None` for a line that does not decode. A line written for an entry is
  assumed to decode back to that entry. That holds for the model's integer amounts, but not always
  in the program (see "## Left out").
- The soft-delete flag keeps the program's representation, a `String` holding "yes" or "no"
  (src/main.rs:19). Only the exact text `"no"` is active (src/main.rs:152, 162, 194, 211), so a
  hand-edited `"YES"` or `"No"` is hidden from every view, as in the program.
- The report walks the entries in file order and does not sort them (src/main.rs:211); so does the
  model.
- Ids are `u32`. `max + 1` overflows when some entry already holds 4294967295. A default (debug)
  build panics there, before saving, so the model's create fails and leaves the file unchanged.

## Model

| member | source | states |
|---|---|---|
| `Journal.NewEntry` | src/main.rs:123-143 | the created record has the given id, is active, carries the prompted fields and has total = debt + credit; `Store.CreateKeepsWellFormed` and `Store.ActiveAfterCreate` state what appending it does |
| `Journal.Apply` | src/main.rs:163-179 | the written-back record keeps its id and flag and has total = debt + credit; an all-blank edit leaves a record whose total is consistent unchanged; `Store.EditKeepsIdentity` states it field by field |
| `IdInput.ParseU32` | src/main.rs:159-161 | text that parses holds at least one digit and nothing but digits and an optional leading '+'; `IdInput.DigitTextParses` states that every digit string below 2^32, with leading zeros or a leading '+', parses to its value; `IdInput.EmptyTextSelectsZero`, `IdInput.NonNumericSelectsZero` and `IdInput.OverflowSelectsZero` state that all other texts fail |
| `IdInput.RequestedId` | src/main.rs:159-161 | text that parses selects its parsed value, and text that does not parse selects 0 |
| `Store.MaxId` | src/main.rs:123 | the result is at least every id in the store, deleted entries included, and is one of those ids; it is 0 for an empty store |
| `Store.NextId` | src/main.rs:123 | the new id is at least 1 and strictly greater than every existing id, and one more than some existing id; it is 1 for an empty store; there is none exactly when some entry already holds the largest `u32` |
| `Store.FindActive` | src/main.rs:162 | the result is the position of the first entry with that id whose flag is "no"; no earlier entry matches; it is `None` exactly when no entry matches |
| `Store.Deleted` | src/main.rs:194-196 | a delete that finds nothing leaves the sequence unchanged; otherwise only the found entry changes, only its flag, to "yes"; the length is kept, so the entry stays stored |
| `Store.Updated` | src/main.rs:162-181 | an update that finds nothing leaves the sequence unchanged; otherwise the found position gets the edited record and every other entry and the length are kept |
| `Store.EditKeepsIdentity` | src/main.rs:163-179 | the written-back record keeps its id and flag, and its total is the new debt + credit; each field takes the supplied value or, when left blank, keeps its previous value |
| `Store.UpdateKeepsPosition` | src/main.rs:162-181 | after an update the same id is still found at the same position, so a following update or delete acts on the same entry |
| `Store.DeleteTwiceNotFound` | src/main.rs:194-199 | with unique ids, after a delete the id is no longer found, so deleting it again changes nothing |
| `Store.Active` | src/main.rs:152 | the view is no longer than the store and holds only entries flagged "no" |
| `Store.ActiveMembers` | src/main.rs:152 | an entry is in the view exactly when it is stored and its flag is exactly "no" |
| `Store.ActiveAppend` | src/main.rs:211 | the view keeps file order: the view of a concatenation is the concatenation of the views |
| `Store.ActiveAfterDelete` | src/main.rs:194-196 | a delete removes exactly the deleted entry from the view, and leaves the entries before and after it in place |
| `Store.ActiveAfterUpdate` | src/main.rs:181 | an update puts the edited record into the same place in the view |
| `Store.ActiveAfterCreate` | src/main.rs:144 | a created entry is active and becomes the last entry of the view |
| `Store.CreateKeepsWellFormed` | src/main.rs:123-144 | appending the created entry keeps ids unique and at least 1, totals equal to debt + credit, and flags "yes"/"no" |
| `Store.UpdateKeepsWellFormed` | src/main.rs:170-181 | an update keeps the same invariant |
| `Store.DeleteKeepsWellFormed` | src/main.rs:194-195 | a delete keeps the same invariant |
| `Store.ZeroIdNotFound` | src/main.rs:161-162 | id 0 finds no entry of a well-formed store, so update and delete of 0 change nothing |
| `IdInput.DigitTextParses` | src/main.rs:159-161 | a non-empty digit string whose value is below 2^32, leading zeros allowed, parses to that value and selects it, with or without a leading '+' ("007" and "+7" select 7) |
| `IdInput.ShownIdParsesBack` | src/main.rs:159-161 | the decimal text of an id, typed back in, selects that same id |
| `IdInput.NonNumericSelectsZero` | src/main.rs:191-193 | trimmed text with a character that is neither a digit nor a leading '+' (a sign '-', letters, interior spaces) does not parse and selects id 0 |
| `IdInput.EmptyTextSelectsZero` | src/main.rs:191-193 | empty text (a blank answer) and a lone '+' do not parse and select id 0 |
| `IdInput.OverflowSelectsZero` | src/main.rs:191-193 | a non-empty digit string whose value is 2^32 or more does not parse and selects id 0, with or without leading zeros or a leading '+' ("+4294967296", "04294967296") |
| `IdInput.OverflowTextSelectsZero` | src/main.rs:191-193 | the plain decimal text of a number of 2^32 or more does not parse and selects id 0 |
| `Ledger.BadIdNotFound` | src/main.rs:159-162 | unparsable id text never finds an entry of a well-formed store |
| `Persistence.Decoded` | src/main.rs:98-104 | loading yields no more entries than the file has lines |
| `Persistence.Loaded` | src/main.rs:91-106 | a missing file loads as no entries, and an existing one as no more entries than it has lines; `Persistence.DecodedMembers` and `Persistence.LoadAfterSave` state which entries |
| `Persistence.Encoded` | src/main.rs:115-118 | the saved file has exactly one line per entry, line i holding entry i; `Persistence.LoadAfterSave` states that loading it gives the entries back |
| `Persistence.DecodedMembers` | src/main.rs:100-101 | an entry is loaded exactly when some line decodes to it |
| `Persistence.DecodedAppend` | src/main.rs:98-104 | loading keeps line order: the loads of two parts concatenate |
| `Persistence.DecodedLength` | src/main.rs:98-104 | exactly as many entries are loaded as there are lines that decode |
| `Persistence.MalformedLineSkipped` | src/main.rs:99-102 | a well-formed line followed by a garbage line loads as exactly that one entry |
| `Persistence.LoadAfterSave` | src/main.rs:108-118 | loading a saved sequence gives it back, so saving what was loaded from a saved file rewrites the same lines |
| `Persistence.LoadEntries` | src/main.rs:91-106 | the load loop returns no entries when the file is missing, and otherwise the decoded lines in order |
| `Persistence.SaveEntries` | src/main.rs:108-118 | the save loop writes one line per entry, in order |
| `Report.RowOf` | src/main.rs:212-226 | a printed row shows the entry's id, date, account id, account name and credit; its credit plus its displayed (negated) debit is the entry's credit − debit; its marker is "R" exactly when the entry is reconciled, and a blank otherwise; it carries the given running total |
| `Report.NetSumAppend` | src/main.rs:210-215 | the running total is additive: the total after a concatenation is the sum of the parts' totals |
| `Report.Rows` | src/main.rs:210-227 | the report has one row per active entry |
| `Report.RowsRunningTotal` | src/main.rs:210-227 | row k shows active entry k with its credit, its negated debit and its marker, and the running total of credit − debit over the first k+1 active entries |
| `Report.RunningReport` | src/main.rs:210-230 | the report loop produces exactly those rows, and its grand total is credit − debit summed over all active entries |
| `Report.ReportExample` | src/main.rs:210-230 | a three-row example: active entries with (credit, debit) (100, 0), (0, 40), (30, 10) give the rows of those entries with running totals 100, 60, 80, and the report's total is 80 |
| `Report.TotalAfterCreate` | src/main.rs:144 | a created entry adds its credit − debit to the report's total |
| `Report.TotalAfterDelete` | src/main.rs:195 | a delete takes the deleted entry's credit − debit out of the report's total |
| `Report.TotalAfterUpdate` | src/main.rs:181 | an update replaces the old record's credit − debit by the new record's in the total |
| `Ledger.JournalFile.CreateEntry` | src/main.rs:121-147 | the file is rewritten as the loaded entries plus one entry at the end, with the next id, flag "no" and total debt + credit; earlier entries are unchanged and in order; on id overflow nothing is saved; well-formedness is kept |
| `Ledger.JournalFile.ReadEntries` | src/main.rs:149-155 | the listing is the active view of the loaded entries |
| `Ledger.JournalFile.UpdateEntry` | src/main.rs:157-187 | it reports found exactly when an active entry has the typed id; if found, the file becomes the updated sequence; if not, the file is left byte-for-byte as it was, including lines that do not decode; well-formedness is kept |
| `Ledger.JournalFile.DeleteEntry` | src/main.rs:189-201 | it reports found exactly when an active entry has the typed id; if found, the file becomes the sequence with that entry flagged "yes"; if not, the file is left as it was; well-formedness is kept |
| `Ledger.JournalFile.ShowReport` | src/main.rs:203-231 | the rows and grand total of the report over the loaded file's active entries |

## Left out

- The prompt helpers `input`, `input_default`, `input_f64`, `input_default_f64`, `input_date` and `input_default_date` (src/main.rs:24-89) are not modelled. They are console I/O with re-prompt loops. Their results are parameters: an `EntryInput` for create, and an `EntryEdit` for update, where `None` stands for a blank answer or for an amount or date that does not parse.
- Lowercasing the reconciled answer (src/main.rs:130, 171) is not modelled. Create receives the resulting `bool`, and update receives an `Option<bool>`.
- `f64` arithmetic is not modelled. Amounts are exact integers (cents), so rounding, NaN and infinities are out of scope.
- The `{:.2}` table layout and the header and separator lines of the report (src/main.rs:205-209, 217-230) are not modelled. The report is produced as a sequence of rows plus a total.
- The console messages ("Entry created.", "Entry not found or already deleted.", ...) are not modelled. They appear as the `created` and `found` results.
- JSON encoding and decoding (serde_json) is not modelled: each line is represented by its decode result. That writing an entry produces a line that decodes back to the same entry is an assumption of the model, not a proved fact. It holds for the model's integer amounts. In the program it fails, for example, for a non-finite amount: `input_f64` accepts "nan", "inf" and "1e999" (src/main.rs:48), serde_json writes a non-finite `f64` as `null`, and `null` does not decode back into an `f64`. Such an entry is skipped at the next load (src/main.rs:100) and erased at the next save, and its id can then be handed out again. Finite amounts round-trip exactly only when serde_json's `float_roundtrip` feature is enabled; the build manifest that would say so is not part of this model.
- Date parsing and formatting (chrono) is not modelled. A date is an opaque triple.
- File-system access is not modelled: existence checks, opening, truncating, writing, and the panics on a failed open or write. A line that is not valid UTF-8 is treated like a line that does not decode, as the loop at src/main.rs:98-99 does. A read error that repeats is not modelled: if the file name denotes a directory, the open at src/main.rs:95 succeeds on Linux, every read fails, and the `for line in reader.lines()` loop with `if let Ok` never ends, while `LoadEntries` always ends.
- The menu loop `print_menu` and `main` (src/main.rs:233-261) is not modelled. It only dispatches to the operations above.
- `Store.NextId`: only the default debug build's overflow panic is modelled. A release build would wrap the id to 0 instead.
- Concurrent writers to the same file are out of scope. The program has no locking, and two processes can lose each other's updates.
