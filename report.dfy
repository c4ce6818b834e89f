/**
 * `show_report`: one row per active entry in file order, each carrying the
 * running net position (credits positive, debits negative) after that row,
 * and a grand total equal to the net of all active entries.
 */
module Report {
  import opened Journal
  import opened Store

  /** An entry's signed contribution to the net position. */
  function Net(e: JournalEntry): int {
    e.amountCredit - e.amountDebt
  }

  /** The net position after the given entries, accumulated left to right. */
  function NetSum(entries: seq<JournalEntry>): int {
    if entries == [] then 0 else NetSum(entries[..|entries| - 1]) + Net(entries[|entries| - 1])
  }

  /**
   * One printed report line. `debit` is the debit as displayed, negated;
   * `marker` is "R" for a reconciled entry and a blank otherwise.
   */
  datatype ReportRow = ReportRow(
    id: Id,
    journalDate: Date,
    accountId: string,
    accountName: string,
    credit: int,
    debit: int,
    marker: string,
    runningTotal: int)

  /** The row printed for `e` when the running total, `e` included, is `runningTotal`. */
  function RowOf(e: JournalEntry, runningTotal: int): (r: ReportRow)
    ensures r.id == e.id && r.journalDate == e.journalDate
    ensures r.accountId == e.accountId && r.accountName == e.accountName
    ensures r.credit == e.amountCredit && r.credit + r.debit == Net(e)
    ensures r.marker == "R" <==> e.reconciled
    ensures !e.reconciled ==> r.marker == " "
    ensures r.runningTotal == runningTotal
  {
    ReportRow(e.id, e.journalDate, e.accountId, e.accountName,
              e.amountCredit, -e.amountDebt, if e.reconciled then "R" else " ", runningTotal)
  }

  /** The net position of a concatenation is the sum of the parts' positions. */
  lemma {:induction false} NetSumAppend(a: seq<JournalEntry>, b: seq<JournalEntry>)
    ensures NetSum(a + b) == NetSum(a) + NetSum(b)
  {
    if b == [] {
      assert a + b == a;
    } else {
      var b' := b[..|b| - 1];
      assert (a + b)[..|a + b| - 1] == a + b';
      NetSumAppend(a, b');
    }
  }

  /** The report's rows for the given active entries: each row carries the total up to and including it. */
  function Rows(active: seq<JournalEntry>): (rows: seq<ReportRow>)
    ensures |rows| == |active|
  {
    if active == [] then []
    else Rows(active[..|active| - 1]) + [RowOf(active[|active| - 1], NetSum(active))]
  }

  /** Row `k` shows entry `k` with the net position of the first `k + 1` entries. */
  lemma {:induction false} RowsRunningTotal(active: seq<JournalEntry>, k: nat)
    requires k < |active|
    ensures Rows(active)[k] == RowOf(active[k], NetSum(active[..k + 1]))
  {
    var n := |active| - 1;
    if k == n {
      assert active[..k + 1] == active;
    } else {
      assert active[..n][..k + 1] == active[..k + 1];
      RowsRunningTotal(active[..n], k);
    }
  }

  /** One more entry of the file: the report grows by a row exactly when that entry is active. */
  lemma {:induction false} ReportStep(entries: seq<JournalEntry>, i: nat)
    requires i < |entries|
    ensures IsActive(entries[i]) ==>
              NetSum(Active(entries[..i + 1])) == NetSum(Active(entries[..i])) + Net(entries[i]) &&
              Rows(Active(entries[..i + 1])) ==
                Rows(Active(entries[..i])) + [RowOf(entries[i], NetSum(Active(entries[..i + 1])))]
    ensures !IsActive(entries[i]) ==> Active(entries[..i + 1]) == Active(entries[..i])
  {
    ActivePrefix(entries, i);
    if IsActive(entries[i]) {
      var before := Active(entries[..i]);
      var after := before + [entries[i]];
      assert after[..|after| - 1] == before;
    }
  }

  /**
   * `show_report` walks all entries, skips the inactive ones and adds each
   * active entry's credit minus debit to the running total before printing it.
   */
  method RunningReport(entries: seq<JournalEntry>) returns (rows: seq<ReportRow>, total: int)
    ensures rows == Rows(Active(entries))
    ensures total == NetSum(Active(entries))
  {
    rows, total := [], 0;
    for i := 0 to |entries|
      invariant rows == Rows(Active(entries[..i]))
      invariant total == NetSum(Active(entries[..i]))
    {
      ReportStep(entries, i);
      if IsActive(entries[i]) {
        var credit := entries[i].amountCredit;
        var debit := entries[i].amountDebt;
        total := total + (credit - debit);
        rows := rows + [RowOf(entries[i], total)];
      }
    }
    assert entries[..|entries|] == entries;
  }

  /**
   * A three-row example: active entries with (credit, debit) (100, 0), (0, 40)
   * and (30, 10) are reported as rows running at 100, 60 and 80, and the
   * report's total is 80.
   */
  lemma {:induction false} ReportExample(a: JournalEntry, b: JournalEntry, c: JournalEntry)
    requires IsActive(a) && IsActive(b) && IsActive(c)
    requires a.amountCredit == 100 && a.amountDebt == 0
    requires b.amountCredit == 0 && b.amountDebt == 40
    requires c.amountCredit == 30 && c.amountDebt == 10
    ensures Rows(Active([a, b, c])) == [RowOf(a, 100), RowOf(b, 60), RowOf(c, 80)]
    ensures NetSum(Active([a, b, c])) == 80
  {
    assert Active([a, b, c]) == [a, b, c] by {
      ActiveSplice([a], b, [c]);
      ActiveSplice([], a, []);
      ActiveSplice([], c, []);
      assert [a] + [b] + [c] == [a, b, c];
    }
    assert [a, b, c][..2] == [a, b];
    assert [a, b][..1] == [a];
    assert [a][..0] == [];
    assert NetSum([a]) == 100;
    assert NetSum([a, b]) == 60;
    assert Rows([a]) == [RowOf(a, 100)];
    assert Rows([a, b]) == [RowOf(a, 100), RowOf(b, 60)];
  }

  /** A created entry adds its credit minus debit to the report's total. */
  lemma {:induction false} TotalAfterCreate(entries: seq<JournalEntry>, id: Id, input: EntryInput)
    ensures NetSum(Active(entries + [NewEntry(id, input)])) ==
              NetSum(Active(entries)) + input.amountCredit - input.amountDebt
  {
    ActiveAfterCreate(entries, id, input);
    NetSumAppend(Active(entries), [NewEntry(id, input)]);
    assert [NewEntry(id, input)][..0] == [];
  }

  /** A soft delete takes the deleted entry's net out of the report's total. */
  lemma {:induction false} TotalAfterDelete(entries: seq<JournalEntry>, id: Id, p: nat)
    requires FindActive(entries, id) == Some(p)
    ensures NetSum(Active(Deleted(entries, id))) == NetSum(Active(entries)) - Net(entries[p])
  {
    ActiveAfterDelete(entries, id, p);
    var pre, post := Active(entries[..p]), Active(entries[p + 1..]);
    NetSumAppend(pre + [entries[p]], post);
    NetSumAppend(pre, [entries[p]]);
    NetSumAppend(pre, post);
    assert [entries[p]][..0] == [];
  }

  /** An update replaces the old record's net by the new record's net in the total. */
  lemma {:induction false} TotalAfterUpdate(entries: seq<JournalEntry>, id: Id, edit: EntryEdit, p: nat)
    requires FindActive(entries, id) == Some(p)
    ensures NetSum(Active(Updated(entries, id, edit))) ==
              NetSum(Active(entries)) - Net(entries[p]) + Net(Apply(entries[p], edit))
  {
    ActiveAround(entries, p);
    ActiveAfterUpdate(entries, id, edit, p);
    var pre, post := Active(entries[..p]), Active(entries[p + 1..]);
    NetSumAppend(pre + [entries[p]], post);
    NetSumAppend(pre, [entries[p]]);
    NetSumAppend(pre + [Apply(entries[p], edit)], post);
    NetSumAppend(pre, [Apply(entries[p], edit)]);
    assert [entries[p]][..0] == [];
    assert [Apply(entries[p], edit)][..0] == [];
  }
}
