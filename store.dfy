/**
 * The in-memory side of the journal store: the operations `create_entry`,
 * `update_entry` and `delete_entry` apply to the loaded sequence, and the
 * active view that `read_entries` and `show_report` iterate over.
 */
module Store {
  import opened Journal

  /** The largest id of any entry, deleted or not; 0 for an empty store. */
  function MaxId(entries: seq<JournalEntry>): (m: Id)
    ensures forall i :: 0 <= i < |entries| ==> entries[i].id <= m
    ensures entries != [] ==> exists i :: 0 <= i < |entries| && entries[i].id == m
    ensures entries == [] ==> m == 0
  {
    if entries == [] then 0
    else
      var rest := MaxId(entries[1..]);
      if entries[0].id > rest then entries[0].id else rest
  }

  /**
   * The id a new entry receives: one more than the largest id in the store,
   * soft-deleted entries included, or 1 for an empty store. The `u32` addition
   * overflows (and the program panics before saving) when some entry already
   * holds the largest `u32`; that case is `None`.
   */
  function NextId(entries: seq<JournalEntry>): (r: Option<Id>)
    ensures r.None? <==> exists i :: 0 <= i < |entries| && entries[i].id == MAX_ID
    ensures r.Some? ==> r.value >= 1 && forall i :: 0 <= i < |entries| ==> entries[i].id < r.value
    ensures r.Some? && entries != [] ==> exists i :: 0 <= i < |entries| && entries[i].id == r.value - 1
    ensures entries == [] ==> r == Some(1)
  {
    var m := MaxId(entries);
    if m == MAX_ID then None else Some(m + 1)
  }

  /** The entry an update or delete of `id` acts on: that id, and not soft-deleted. */
  predicate Matches(e: JournalEntry, id: Id) {
    e.id == id && IsActive(e)
  }

  /** The position of the first entry that matches `id`, searching in file order. */
  function FindActive(entries: seq<JournalEntry>, id: Id): (r: Option<nat>)
    ensures r.Some? ==> r.value < |entries| && Matches(entries[r.value], id)
    ensures r.Some? ==> forall j :: 0 <= j < r.value ==> !Matches(entries[j], id)
    ensures r.None? <==> forall j :: 0 <= j < |entries| ==> !Matches(entries[j], id)
  {
    if entries == [] then None
    else if Matches(entries[0], id) then Some(0)
    else
      match FindActive(entries[1..], id)
      case Some(k) => Some(k + 1)
      case None => None
  }

  /**
   * Soft delete, written as a walk over the sequence: the first matching entry
   * gets the "yes" flag, everything else is kept. Its contract states the same
   * thing by position, as the program does it in place.
   */
  function Deleted(entries: seq<JournalEntry>, id: Id): (r: seq<JournalEntry>)
    ensures |r| == |entries|
    ensures FindActive(entries, id).None? ==> r == entries
    ensures FindActive(entries, id).Some? ==>
              var p := FindActive(entries, id).value;
              r[p] == entries[p].(isDeleted := YES) &&
              forall j :: 0 <= j < |entries| && j != p ==> r[j] == entries[j]
  {
    if entries == [] then []
    else if Matches(entries[0], id) then [entries[0].(isDeleted := YES)] + entries[1..]
    else [entries[0]] + Deleted(entries[1..], id)
  }

  /**
   * Update, written as a walk over the sequence: the first matching entry is
   * replaced by the edited record, everything else is kept.
   */
  function Updated(entries: seq<JournalEntry>, id: Id, edit: EntryEdit): (r: seq<JournalEntry>)
    ensures |r| == |entries|
    ensures FindActive(entries, id).None? ==> r == entries
    ensures FindActive(entries, id).Some? ==>
              var p := FindActive(entries, id).value;
              r[p] == Apply(entries[p], edit) &&
              forall j :: 0 <= j < |entries| && j != p ==> r[j] == entries[j]
  {
    if entries == [] then []
    else if Matches(entries[0], id) then [Apply(entries[0], edit)] + entries[1..]
    else [entries[0]] + Updated(entries[1..], id, edit)
  }

  /** The active view: the entries whose flag is exactly "no", in file order. */
  function Active(entries: seq<JournalEntry>): (r: seq<JournalEntry>)
    ensures |r| <= |entries|
    ensures forall i :: 0 <= i < |r| ==> IsActive(r[i])
  {
    if entries == [] then []
    else (if IsActive(entries[0]) then [entries[0]] else []) + Active(entries[1..])
  }

  /**
   * The active view keeps file order: it distributes over concatenation, so it
   * is the concatenation of the one-entry views, each `[e]` or `[]`.
   */
  lemma {:induction false} ActiveAppend(a: seq<JournalEntry>, b: seq<JournalEntry>)
    ensures Active(a + b) == Active(a) + Active(b)
  {
    if a == [] {
      assert a + b == b;
    } else {
      assert (a + b)[0] == a[0];
      assert (a + b)[1..] == a[1..] + b;
      ActiveAppend(a[1..], b);
    }
  }

  /** An entry is in the active view exactly when it is stored and flagged "no". */
  lemma {:induction false} ActiveMembers(entries: seq<JournalEntry>, e: JournalEntry)
    ensures e in Active(entries) <==> e in entries && IsActive(e)
  {
    if entries != [] {
      ActiveMembers(entries[1..], e);
      assert e in entries <==> e == entries[0] || e in entries[1..];
    }
  }

  /** The active view of a prefix grows by the next entry exactly when that entry is active. */
  lemma {:induction false} ActivePrefix(entries: seq<JournalEntry>, i: nat)
    requires i < |entries|
    ensures Active(entries[..i + 1]) ==
              Active(entries[..i]) + (if IsActive(entries[i]) then [entries[i]] else [])
  {
    assert entries[..i + 1] == entries[..i] + [entries[i]];
    ActiveAppend(entries[..i], [entries[i]]);
  }

  /** The active view of a sequence split around one entry. */
  lemma {:induction false} ActiveSplice(pre: seq<JournalEntry>, x: JournalEntry, post: seq<JournalEntry>)
    ensures Active(pre + [x] + post) ==
              Active(pre) + (if IsActive(x) then [x] else []) + Active(post)
  {
    ActiveAppend(pre + [x], post);
    ActiveAppend(pre, [x]);
    assert [x][1..] == [];
  }

  /** The active view around position `p`. */
  lemma {:induction false} ActiveAround(entries: seq<JournalEntry>, p: nat)
    requires p < |entries|
    ensures Active(entries) ==
              Active(entries[..p]) + (if IsActive(entries[p]) then [entries[p]] else []) + Active(entries[p + 1..])
  {
    assert entries == entries[..p] + [entries[p]] + entries[p + 1..];
    ActiveSplice(entries[..p], entries[p], entries[p + 1..]);
  }

  /** Ids are unique across the whole store, soft-deleted entries included. */
  predicate UniqueIds(entries: seq<JournalEntry>) {
    forall i, j :: 0 <= i < j < |entries| ==> entries[i].id != entries[j].id
  }

  /**
   * What the store's own operations keep true of a file they wrote, starting
   * from no file: ids unique and at least 1, totals equal to debt + credit,
   * flags "yes" or "no". A hand-edited file need not satisfy it.
   */
  predicate WellFormed(entries: seq<JournalEntry>) {
    UniqueIds(entries) &&
    (forall i :: 0 <= i < |entries| ==> entries[i].id >= 1) &&
    (forall i :: 0 <= i < |entries| ==> entries[i].amountTotal == entries[i].amountDebt + entries[i].amountCredit) &&
    (forall i :: 0 <= i < |entries| ==> entries[i].isDeleted == YES || entries[i].isDeleted == NO)
  }

  /** Create appends one active entry with a fresh id and total = debt + credit. */
  lemma {:induction false} CreateKeepsWellFormed(entries: seq<JournalEntry>, input: EntryInput)
    requires WellFormed(entries) && NextId(entries).Some?
    ensures WellFormed(entries + [NewEntry(NextId(entries).value, input)])
  {
  }

  lemma {:induction false} DeleteKeepsWellFormed(entries: seq<JournalEntry>, id: Id)
    requires WellFormed(entries)
    ensures WellFormed(Deleted(entries, id))
  {
  }

  lemma {:induction false} UpdateKeepsWellFormed(entries: seq<JournalEntry>, id: Id, edit: EntryEdit)
    requires WellFormed(entries)
    ensures WellFormed(Updated(entries, id, edit))
  {
  }

  /**
   * The record an update writes keeps its id and flag, recomputes the total,
   * takes every supplied field and keeps every field left blank.
   */
  lemma {:induction false} EditKeepsIdentity(e: JournalEntry, edit: EntryEdit)
    ensures Apply(e, edit).id == e.id && Apply(e, edit).isDeleted == e.isDeleted
    ensures Apply(e, edit).amountTotal == Apply(e, edit).amountDebt + Apply(e, edit).amountCredit
    ensures Apply(e, edit).journalDate == (if edit.journalDate.Some? then edit.journalDate.value else e.journalDate)
    ensures Apply(e, edit).accountId == (if edit.accountId.Some? then edit.accountId.value else e.accountId)
    ensures Apply(e, edit).accountName == (if edit.accountName.Some? then edit.accountName.value else e.accountName)
    ensures Apply(e, edit).amountDebt == (if edit.amountDebt.Some? then edit.amountDebt.value else e.amountDebt)
    ensures Apply(e, edit).amountCredit == (if edit.amountCredit.Some? then edit.amountCredit.value else e.amountCredit)
    ensures Apply(e, edit).reconciled == (if edit.reconciled.Some? then edit.reconciled.value else e.reconciled)
  {
  }

  /**
   * Under unique ids a successful delete hides the id for good: a second
   * delete of the same id finds nothing and changes nothing.
   */
  lemma {:induction false} DeleteTwiceNotFound(entries: seq<JournalEntry>, id: Id)
    requires UniqueIds(entries)
    ensures FindActive(Deleted(entries, id), id).None?
    ensures Deleted(Deleted(entries, id), id) == Deleted(entries, id)
  {
  }

  /**
   * An updated entry stays active with the same id, so the next update or
   * delete of that id acts on the same position.
   */
  lemma {:induction false} UpdateKeepsPosition(entries: seq<JournalEntry>, id: Id, edit: EntryEdit)
    ensures FindActive(Updated(entries, id, edit), id) == FindActive(entries, id)
  {
  }

  /**
   * A soft delete removes exactly the deleted entry from the active view (the
   * stored sequence keeps it, flagged "yes", at the same position).
   */
  lemma {:induction false} ActiveAfterDelete(entries: seq<JournalEntry>, id: Id, p: nat)
    requires FindActive(entries, id) == Some(p)
    ensures Active(entries) == Active(entries[..p]) + [entries[p]] + Active(entries[p + 1..])
    ensures Active(Deleted(entries, id)) == Active(entries[..p]) + Active(entries[p + 1..])
  {
    var r := Deleted(entries, id);
    assert Active(r) == Active(entries[..p]) + Active(entries[p + 1..]) by {
      assert YES[0] != NO[0];
      assert r[..p] == entries[..p];
      assert r[p + 1..] == entries[p + 1..];
      ActiveAround(r, p);
    }
    ActiveAround(entries, p);
  }

  /** An update swaps the edited record into the same place of the active view. */
  lemma {:induction false} ActiveAfterUpdate(entries: seq<JournalEntry>, id: Id, edit: EntryEdit, p: nat)
    requires FindActive(entries, id) == Some(p)
    ensures Active(Updated(entries, id, edit)) ==
              Active(entries[..p]) + [Apply(entries[p], edit)] + Active(entries[p + 1..])
  {
    var r := Updated(entries, id, edit);
    assert r[..p] == entries[..p];
    assert r[p + 1..] == entries[p + 1..];
    ActiveAround(r, p);
  }

  /** A created entry is active, so it ends the active view. */
  lemma {:induction false} ActiveAfterCreate(entries: seq<JournalEntry>, id: Id, input: EntryInput)
    ensures Active(entries + [NewEntry(id, input)]) == Active(entries) + [NewEntry(id, input)]
  {
    ActiveAppend(entries, [NewEntry(id, input)]);
  }

  /**
   * Every id the store hands out is at least 1, while an id that does not parse
   * is looked up as 0: such a lookup never finds an entry of a well-formed store.
   */
  lemma {:induction false} ZeroIdNotFound(entries: seq<JournalEntry>, edit: EntryEdit)
    requires WellFormed(entries)
    ensures FindActive(entries, 0).None?
    ensures Deleted(entries, 0) == entries && Updated(entries, 0, edit) == entries
  {
  }
}
