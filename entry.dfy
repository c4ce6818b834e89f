/** The journal-entry record and the values the interactive layer hands to the store. */
module Journal {

  datatype Option<+T> = None | Some(value: T) {
    /** The wrapped value, or `default` when there is none (Rust's `unwrap_or`). */
    function GetOr(default: T): T {
      match this
      case Some(v) => v
      case None => default
    }
  }

  /** Entry ids are Rust `u32` values. */
  const U32_LIMIT: int := 0x1_0000_0000
  type Id = x: int | 0 <= x < U32_LIMIT
  const MAX_ID: Id := 0xFFFF_FFFF

  /** A calendar date, kept opaque: parsing and validation belong to the date library. */
  datatype Date = Date(year: int, month: int, day: int)

  /** The two markers the program writes into the `isdeleted` field. */
  const NO: string := "no"
  const YES: string := "yes"

  /**
   * One ledger line. Amounts are in cents. `isDeleted` is free text as in the
   * file: the program writes only "yes" or "no", but a hand-edited file may
   * hold anything, and only the exact text "no" counts as active.
   */
  datatype JournalEntry = JournalEntry(
    id: Id,
    journalDate: Date,
    accountId: string,
    accountName: string,
    amountDebt: int,
    amountCredit: int,
    amountTotal: int,
    reconciled: bool,
    isDeleted: string)

  /** An entry is shown by every read-oriented view exactly when its flag is "no". */
  predicate IsActive(e: JournalEntry) {
    e.isDeleted == NO
  }

  /** The field values prompted for when an entry is created. */
  datatype EntryInput = EntryInput(
    journalDate: Date,
    accountId: string,
    accountName: string,
    amountDebt: int,
    amountCredit: int,
    reconciled: bool)

  /**
   * The field values prompted for when an entry is updated. `None` means the
   * operator left the prompt blank (or, for the date and the amounts, typed
   * something that does not parse): the current value is kept.
   */
  datatype EntryEdit = EntryEdit(
    journalDate: Option<Date>,
    accountId: Option<string>,
    accountName: Option<string>,
    amountDebt: Option<int>,
    amountCredit: Option<int>,
    reconciled: Option<bool>)

  /** The record `create_entry` builds: a fresh id, not deleted, total = debt + credit. */
  function NewEntry(id: Id, input: EntryInput): (r: JournalEntry)
    ensures r.id == id && IsActive(r)
    ensures r.amountTotal == r.amountDebt + r.amountCredit
    ensures r.journalDate == input.journalDate && r.accountId == input.accountId &&
            r.accountName == input.accountName && r.reconciled == input.reconciled
    ensures r.amountDebt == input.amountDebt && r.amountCredit == input.amountCredit
  {
    JournalEntry(id, input.journalDate, input.accountId, input.accountName,
                 input.amountDebt, input.amountCredit, input.amountDebt + input.amountCredit,
                 input.reconciled, NO)
  }

  /** The record `update_entry` writes back: every editable field replaced or kept, total recomputed. */
  function Apply(e: JournalEntry, edit: EntryEdit): (r: JournalEntry)
    ensures r.id == e.id && r.isDeleted == e.isDeleted
    ensures r.amountTotal == r.amountDebt + r.amountCredit
    ensures (edit == EntryEdit(None, None, None, None, None, None) &&
             e.amountTotal == e.amountDebt + e.amountCredit) ==> r == e
  {
    var debt := edit.amountDebt.GetOr(e.amountDebt);
    var credit := edit.amountCredit.GetOr(e.amountCredit);
    e.(journalDate := edit.journalDate.GetOr(e.journalDate),
       accountId := edit.accountId.GetOr(e.accountId),
       accountName := edit.accountName.GetOr(e.accountName),
       amountDebt := debt,
       amountCredit := credit,
       amountTotal := debt + credit,
       reconciled := edit.reconciled.GetOr(e.reconciled))
  }
}
