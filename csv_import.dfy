/**
 * What the CSV import does with its input once the data frame has been read
 * and validated: the reject list (one reject per failure case, then only the
 * first reject of each row number) and the mapping of each validated row to
 * a transaction, with the currency default, the text truncations and the
 * inferred bucket.
 */
module CsvImport {
  import opened Wrappers
  import opened Dates
  import opened Grouping
  import opened Text
  import opened Ledger
  import opened BucketClassifier

  /** A row the import refuses: its 1-based data row number and why. */
  datatype RejectRow = RejectRow(rowNumber: int, reason: string)

  datatype ImportResult = ImportResult(insertedCount: nat, rejectedRows: seq<RejectRow>)

  /**
   * A failure case of the schema check: the 0-based data index it names
   * (none for a failure of a whole column), and the column, the check and
   * the failing value as text.
   */
  datatype FailureCase = FailureCase(index: Option<int>, column: string, check: string, failure: string)

  /** A validated row: `tx_type`, a positive amount in cents, a date, and the nullable text columns. */
  datatype CsvRow = CsvRow(
    txType: TxType,
    amount: int,
    currency: Option<string>,
    category: Option<string>,
    bucket: Option<string>,
    occurredOn: Date,
    note: Option<string>)

  const EmptyReason: string := "CSV is empty"
  const DefaultCurrencyCode: string := "EUR"
  const CategoryWidth: nat := 50
  const NoteWidth: nat := 255
  const BucketWidth: nat := 20
  const CurrencyWidth: nat := 3

  /** `f"{col}: {check} ({failure})".strip()`. */
  function ReasonOf(f: FailureCase): string {
    Strip(f.column + ": " + f.check + " (" + f.failure + ")", IsPySpace)
  }

  /** The reject a failure case becomes: its index plus one (index 0 when there is none), with its reason. */
  function RejectOf(f: FailureCase): (r: RejectRow)
    ensures f.index.Some? ==> r.rowNumber == f.index.value + 1
    ensures f.index.None? ==> r.rowNumber == 1
    ensures r.reason == ReasonOf(f)
  {
    var idx := if f.index.Some? then f.index.value else 0;
    RejectRow(idx + 1, ReasonOf(f))
  }

  /** The loop over the failure cases: one reject per case, in order. */
  method CollectRejects(failures: seq<FailureCase>) returns (rejected: seq<RejectRow>)
    ensures |rejected| == |failures|
    ensures forall i :: 0 <= i < |failures| ==> rejected[i] == RejectOf(failures[i])
  {
    rejected := [];
    var i := 0;
    while i < |failures|
      invariant 0 <= i <= |failures|
      invariant |rejected| == i
      invariant forall k :: 0 <= k < i ==> rejected[k] == RejectOf(failures[k])
    {
      rejected := rejected + [RejectOf(failures[i])];
      i := i + 1;
    }
  }

  /** `rs[i]` is the first reject with its row number. */
  predicate FirstOfRow(rs: seq<RejectRow>, i: nat)
    requires i < |rs|
  {
    forall j :: 0 <= j < i ==> rs[j].rowNumber != rs[i].rowNumber
  }

  /** The rejects among the first `n` that are the first of their row number, in order. */
  function KeepFirst(rs: seq<RejectRow>, n: nat): seq<RejectRow>
    requires n <= |rs|
  {
    if n == 0 then []
    else KeepFirst(rs, n - 1) + (if FirstOfRow(rs, n - 1) then [rs[n - 1]] else [])
  }

  /** The positions of the rejects `KeepFirst` keeps: increasing, each the first of its row number, and all of those. */
  function FirstPositions(rs: seq<RejectRow>, n: nat): (r: seq<nat>)
    requires n <= |rs|
    ensures forall k :: 0 <= k < |r| ==> r[k] < n && FirstOfRow(rs, r[k])
    ensures forall k, l :: 0 <= k < l < |r| ==> r[k] < r[l]
    ensures forall i :: 0 <= i < n && FirstOfRow(rs, i) ==> i in r
  {
    if n == 0 then []
    else FirstPositions(rs, n - 1) + (if FirstOfRow(rs, n - 1) then [n - 1] else [])
  }

  /** The kept rejects are the rejects at those positions: a subsequence of the input, in its order. */
  lemma {:induction false} KeepFirstPositions(rs: seq<RejectRow>, n: nat)
    requires n <= |rs|
    ensures |KeepFirst(rs, n)| == |FirstPositions(rs, n)|
    ensures forall k :: 0 <= k < |KeepFirst(rs, n)| ==> KeepFirst(rs, n)[k] == rs[FirstPositions(rs, n)[k]]
  {
    if n > 0 {
      KeepFirstPositions(rs, n - 1);
    }
  }

  /** No two kept rejects share a row number. */
  lemma KeepFirstDistinct(rs: seq<RejectRow>, n: nat)
    requires n <= |rs|
    ensures forall k, l :: 0 <= k < l < |KeepFirst(rs, n)| ==> KeepFirst(rs, n)[k].rowNumber != KeepFirst(rs, n)[l].rowNumber
  {
    KeepFirstPositions(rs, n);
    var p := FirstPositions(rs, n);
    forall k, l | 0 <= k < l < |KeepFirst(rs, n)| ensures KeepFirst(rs, n)[k].rowNumber != KeepFirst(rs, n)[l].rowNumber {
      assert p[k] < p[l] && FirstOfRow(rs, p[l]);
    }
  }

  /** Each reject has an earlier-or-equal one with its row number that is the first of that row number. */
  lemma {:induction false} EarliestOfRow(rs: seq<RejectRow>, i: nat)
    requires i < |rs|
    ensures exists j :: 0 <= j <= i && FirstOfRow(rs, j) && rs[j].rowNumber == rs[i].rowNumber
  {
    if !FirstOfRow(rs, i) {
      var j :| 0 <= j < i && rs[j].rowNumber == rs[i].rowNumber;
      EarliestOfRow(rs, j);
    }
  }

  /** Every row number among the first `n` rejects keeps a reject, and it is the first one with that row number. */
  lemma KeepFirstCovers(rs: seq<RejectRow>, n: nat, i: nat)
    requires i < n <= |rs|
    ensures exists k, j ::
      && 0 <= k < |KeepFirst(rs, n)|
      && 0 <= j <= i
      && KeepFirst(rs, n)[k] == rs[j]
      && FirstOfRow(rs, j)
      && rs[j].rowNumber == rs[i].rowNumber
  {
    EarliestOfRow(rs, i);
    var j :| 0 <= j <= i && FirstOfRow(rs, j) && rs[j].rowNumber == rs[i].rowNumber;
    KeepFirstPositions(rs, n);
    var p := FirstPositions(rs, n);
    var k :| 0 <= k < |p| && p[k] == j;
    assert KeepFirst(rs, n)[k] == rs[j];
  }

  /** The two de-duplication loops: a `seen` set of row numbers and the `uniq` list of first rejects. */
  method DedupRejects(rejected: seq<RejectRow>) returns (uniq: seq<RejectRow>)
    ensures uniq == KeepFirst(rejected, |rejected|)
    ensures forall k, l :: 0 <= k < l < |uniq| ==> uniq[k].rowNumber != uniq[l].rowNumber
  {
    var seen: set<int> := {};
    uniq := [];
    var i := 0;
    while i < |rejected|
      invariant 0 <= i <= |rejected|
      invariant uniq == KeepFirst(rejected, i)
      invariant seen == set j | 0 <= j < i :: rejected[j].rowNumber
    {
      var r := rejected[i];
      if r.rowNumber !in seen {
        assert FirstOfRow(rejected, i);
        seen := seen + {r.rowNumber};
        uniq := uniq + [r];
      } else {
        assert !FirstOfRow(rejected, i);
      }
      i := i + 1;
    }
    KeepFirstDistinct(rejected, |rejected|);
  }

  /** `fillna("EUR")` and `replace("", "EUR")` on the currency column. */
  function DefaultCurrency(c: Option<string>): (r: string)
    ensures c.None? || c.value == "" ==> r == DefaultCurrencyCode
    ensures c.Some? && c.value != "" ==> r == c.value
  {
    if c.None? || c.value == "" then DefaultCurrencyCode else c.value
  }

  /** `str(c)[:3].upper() if c else "EUR"`. */
  function RowCurrency(c: string): (r: string)
    ensures c == "" ==> r == DefaultCurrencyCode
    ensures c != "" ==> |r| == (if |c| < CurrencyWidth then |c| else CurrencyWidth)
    ensures c != "" ==> forall i :: 0 <= i < |r| ==> r[i] == UpperChar(c[i])
  {
    if c != "" then Upper(Prefix(c, CurrencyWidth)) else DefaultCurrencyCode
  }

  /** `str(v)[:n] if pd.notna(v) else None`. */
  function Truncated(v: Option<string>, n: nat): (r: Option<string>)
    ensures r.None? <==> v.None?
    ensures r.Some? ==> |r.value| == (if |v.value| < n then |v.value| else n) && r.value == v.value[..|r.value|]
  {
    if v.Some? then Some(Prefix(v.value, n)) else None
  }

  /** The label `infer_bucket` returns for a bucket. */
  function LabelOf(b: Option<Bucket>): (r: Option<string>)
    ensures r.None? <==> b.None?
    ensures r.Some? ==> ParseBucket(r.value) == b
  {
    if b.Some? then Some(BucketLabel(b.value)) else None
  }

  /** A provided bucket truncated to 20 characters; otherwise the inferred one for an expense and none for income. */
  function RowBucket(row: CsvRow, category: Option<string>, note: Option<string>): Option<string> {
    if row.bucket.Some? then Some(Prefix(row.bucket.value, BucketWidth))
    else if row.txType == Expense then LabelOf(InferBucket(category, note))
    else None
  }

  /** The `Transaction` built from a validated row. */
  function ToTx(row: CsvRow): Tx {
    var category := Truncated(row.category, CategoryWidth);
    var note := Truncated(row.note, NoteWidth);
    Tx(row.txType, row.amount, RowCurrency(DefaultCurrency(row.currency)), category, RowBucket(row, category, note), row.occurredOn, note)
  }

  /**
   * What a row becomes: type, amount and date unchanged; the currency
   * defaulted or cut to three upper-case characters; category and note cut
   * to 50 and 255 characters; a provided bucket cut to 20; a missing one
   * inferred from the stored category and note for an expense, and left
   * missing for income.
   */
  lemma ToTxFields(row: CsvRow)
    ensures var t := ToTx(row);
      && t.txType == row.txType && t.amount == row.amount && t.occurredOn == row.occurredOn
      && (row.currency.None? || row.currency.value == "" ==> t.currency == DefaultCurrencyCode)
      && (row.currency.Some? && row.currency.value != "" ==>
            && |t.currency| == (if |row.currency.value| < 3 then |row.currency.value| else 3)
            && forall i :: 0 <= i < |t.currency| ==> t.currency[i] == UpperChar(row.currency.value[i]))
      && t.category == Truncated(row.category, 50)
      && t.note == Truncated(row.note, 255)
      && (row.bucket.Some? ==> t.bucket == Some(Prefix(row.bucket.value, 20)))
      && (row.bucket.None? && row.txType == Income ==> t.bucket.None?)
      && (row.bucket.None? && row.txType == Expense ==> t.bucket == LabelOf(InferBucket(t.category, t.note)))
  {
    ToTxCurrency(row);
    ToTxBucket(row);
  }

  /** The currency of a row: defaulted when missing or empty, otherwise its first three characters upper-cased. */
  lemma ToTxCurrency(row: CsvRow)
    ensures var t := ToTx(row);
      && (row.currency.None? || row.currency.value == "" ==> t.currency == DefaultCurrencyCode)
      && (row.currency.Some? && row.currency.value != "" ==>
            && |t.currency| == (if |row.currency.value| < 3 then |row.currency.value| else 3)
            && forall i :: 0 <= i < |t.currency| ==> t.currency[i] == UpperChar(row.currency.value[i]))
  {
    var c := DefaultCurrency(row.currency);
    assert ToTx(row).currency == RowCurrency(c);
  }

  /** The bucket of a row: a provided one cut to 20 characters, otherwise inferred for an expense only. */
  lemma ToTxBucket(row: CsvRow)
    ensures var t := ToTx(row);
      && (row.bucket.Some? ==> t.bucket == Some(Prefix(row.bucket.value, 20)))
      && (row.bucket.None? && row.txType == Income ==> t.bucket.None?)
      && (row.bucket.None? && row.txType == Expense ==> t.bucket == LabelOf(InferBucket(t.category, t.note)))
  {
  }

  /** The stored currency is never longer than three characters and never has a lower-case letter. */
  lemma CurrencyShape(row: CsvRow)
    ensures |ToTx(row).currency| <= 3
    ensures forall i :: 0 <= i < |ToTx(row).currency| ==> !IsLower(ToTx(row).currency[i])
  {
    ToTxFields(row);
  }

  /** A bucket the import fills in itself is always one of the three labels. */
  lemma InferredBucketIsLabel(row: CsvRow)
    requires row.bucket.None?
    ensures ToTx(row).bucket.Some? ==> row.txType == Expense && ParseBucket(ToTx(row).bucket.value).Some?
  {
  }

  /** A positive amount on a real date gives a transaction the ledger accepts. */
  lemma ToTxValid(row: CsvRow)
    requires row.amount > 0 && ValidDate(row.occurredOn)
    ensures ValidTx(ToTx(row))
  {
  }

  /** The loop over the validated rows: one transaction per row, in order. */
  method BuildTransactions(rows: seq<CsvRow>) returns (txs: seq<Tx>)
    ensures |txs| == |rows|
    ensures forall i :: 0 <= i < |rows| ==> txs[i] == ToTx(rows[i])
  {
    txs := [];
    var i := 0;
    while i < |rows|
      invariant 0 <= i <= |rows|
      invariant |txs| == i
      invariant forall k :: 0 <= k < i ==> txs[k] == ToTx(rows[k])
    {
      txs := txs + [ToTx(rows[i])];
      i := i + 1;
    }
  }

  /**
   * `import_transactions_csv` after reading and validation: `isEmpty` is
   * whether the frame read had no data, `failures` the schema's failure cases
   * (empty when validation passed) and `rows` the validated rows that
   * survived. Returns the result and the transactions handed to the store.
   */
  method ImportRows(isEmpty: bool, failures: seq<FailureCase>, rows: seq<CsvRow>) returns (result: ImportResult, inserted: seq<Tx>)
    ensures isEmpty ==> result == ImportResult(0, [RejectRow(1, EmptyReason)]) && inserted == []
    ensures !isEmpty ==> result.rejectedRows == KeepFirst(MapSeq(failures, RejectOf), |failures|)
    ensures !isEmpty ==> result.insertedCount == |inserted| == |rows|
    ensures !isEmpty ==> forall i :: 0 <= i < |rows| ==> inserted[i] == ToTx(rows[i])
    ensures forall k, l :: 0 <= k < l < |result.rejectedRows| ==> result.rejectedRows[k].rowNumber != result.rejectedRows[l].rowNumber
  {
    if isEmpty {
      return ImportResult(0, [RejectRow(1, EmptyReason)]), [];
    }
    var rejected: seq<RejectRow> := [];
    if failures != [] {
      rejected := CollectRejects(failures);
      assert rejected == MapSeq(failures, RejectOf);
      if rows == [] {
        var uniq := DedupRejects(rejected);
        return ImportResult(0, uniq), [];
      }
      rejected := DedupRejects(rejected);
    }
    inserted := BuildTransactions(rows);
    result := ImportResult(|inserted|, rejected);
  }
}
