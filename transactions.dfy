/**
 * The transactions table as a store of records with auto-incremented ids:
 * create, get, a filtered and paged listing newest first, a partial update
 * and delete.
 */
module Transactions {
  import opened Wrappers
  import opened Dates
  import opened Ledger

  /** A stored row: its primary key and its columns. */
  datatype Record = Record(id: int, tx: Tx)

  /**
   * A `TransactionUpdate` with only the fields the client set: `None` for a
   * field left out, `Some(None)` for an explicit null, which the schema
   * admits for every field.
   */
  datatype Patch = Patch(
    txType: Option<Option<TxType>>,
    amount: Option<Option<int>>,
    currency: Option<Option<string>>,
    category: Option<Option<string>>,
    bucket: Option<Option<string>>,
    occurredOn: Option<Option<Date>>,
    note: Option<Option<string>>)

  /** Why an update is refused: no record has the id (the 404), or the commit rejects a null. */
  datatype UpdateError = NotFound | NullColumn

  /** The filters of `list_transactions`; each is skipped when absent (and the text ones when empty). */
  datatype Query = Query(
    txType: Option<string>,
    category: Option<string>,
    bucket: Option<string>,
    dateFrom: Option<Date>,
    dateTo: Option<Date>)

  /** Python truthiness of an optional string. */
  predicate Given(s: Option<string>) {
    s.Some? && s.value != ""
  }

  /** The `k`-th WHERE clause of the listing, true for every record when that filter is not given. */
  predicate Criterion(r: Record, q: Query, k: nat) {
    if k == 0 then Given(q.txType) ==> TypeLabel(r.tx.txType) == q.txType.value
    else if k == 1 then Given(q.category) ==> r.tx.category == Some(q.category.value)
    else if k == 2 then Given(q.bucket) ==> r.tx.bucket == Some(q.bucket.value)
    else if k == 3 then q.dateFrom.Some? ==> DateLe(q.dateFrom.value, r.tx.occurredOn)
    else if k == 4 then q.dateTo.Some? ==> DateLe(r.tx.occurredOn, q.dateTo.value)
    else true
  }

  /** The first `k` WHERE clauses hold. */
  predicate Stage(r: Record, q: Query, k: nat) {
    forall j :: 0 <= j < k ==> Criterion(r, q, j)
  }

  /** Every filter of the query holds. */
  predicate Matches(r: Record, q: Query) {
    Stage(r, q, 5)
  }

  /** A record matches iff it satisfies each filter that is given: type, category and bucket exactly, dates inclusively. */
  lemma MatchesIff(r: Record, q: Query)
    ensures Matches(r, q) <==>
      && (Given(q.txType) ==> TypeLabel(r.tx.txType) == q.txType.value)
      && (Given(q.category) ==> r.tx.category == Some(q.category.value))
      && (Given(q.bucket) ==> r.tx.bucket == Some(q.bucket.value))
      && (q.dateFrom.Some? ==> DateLe(q.dateFrom.value, r.tx.occurredOn))
      && (q.dateTo.Some? ==> DateLe(r.tx.occurredOn, q.dateTo.value))
  {
    assert Criterion(r, q, 0) && Criterion(r, q, 1) && Criterion(r, q, 2) && Criterion(r, q, 3) && Criterion(r, q, 4) ==> Matches(r, q) by {
      if Criterion(r, q, 0) && Criterion(r, q, 1) && Criterion(r, q, 2) && Criterion(r, q, 3) && Criterion(r, q, 4) {
        forall j | 0 <= j < 5 ensures Criterion(r, q, j) {
          assert j == 0 || j == 1 || j == 2 || j == 3 || j == 4;
        }
      }
    }
  }

  /** The records `p` accepts, in order. */
  function Keep(rs: seq<Record>, p: Record -> bool): (r: seq<Record>)
    ensures |r| <= |rs|
    ensures forall x :: x in r <==> x in rs && p(x)
  {
    if rs == [] then []
    else (if p(rs[0]) then [rs[0]] else []) + Keep(rs[1..], p)
  }

  /** Filtering twice is filtering by both. */
  lemma {:induction false} KeepKeep(rs: seq<Record>, p: Record -> bool, p': Record -> bool, both: Record -> bool)
    requires forall x :: both(x) == (p(x) && p'(x))
    ensures Keep(Keep(rs, p), p') == Keep(rs, both)
  {
    if rs != [] {
      KeepKeep(rs[1..], p, p', both);
      if p(rs[0]) {
        assert Keep(rs, p) == [rs[0]] + Keep(rs[1..], p);
        assert Keep(rs, p)[1..] == Keep(rs[1..], p);
      } else {
        assert Keep(rs, p) == Keep(rs[1..], p);
      }
    }
  }

  /** Filters that accept the same records give the same result. */
  lemma {:induction false} KeepSame(rs: seq<Record>, p: Record -> bool, p': Record -> bool)
    requires forall x :: p(x) == p'(x)
    ensures Keep(rs, p) == Keep(rs, p')
  {
    if rs != [] {
      KeepSame(rs[1..], p, p');
    }
  }

  /** `WHERE` on the matching records: the result of filtering by all of the query. */
  function Selected(rs: seq<Record>, q: Query): (r: seq<Record>)
    ensures forall x :: x in r <==> x in rs && Matches(x, q)
  {
    Keep(rs, x => Matches(x, q))
  }

  /** `ORDER BY occurred_on DESC, id DESC`: `a` may come before `b`. */
  predicate Newer(a: Record, b: Record) {
    DateLt(b.tx.occurredOn, a.tx.occurredOn) || (a.tx.occurredOn == b.tx.occurredOn && a.id >= b.id)
  }

  predicate NewestFirst(s: seq<Record>) {
    forall i, j :: 0 <= i < j < |s| ==> Newer(s[i], s[j])
  }

  /** Inserts `x` into a list sorted newest first. */
  function InsertNewest(x: Record, s: seq<Record>): (r: seq<Record>)
    requires NewestFirst(s)
    ensures |r| == |s| + 1
    ensures NewestFirst(r)
    ensures multiset(r) == multiset(s) + multiset{x}
    ensures r[0] == if s == [] || Newer(x, s[0]) then x else s[0]
  {
    if s == [] then [x]
    else if Newer(x, s[0]) then
      InsertFront(x, s);
      [x] + s
    else
      var t := InsertNewest(x, s[1..]);
      assert s == [s[0]] + s[1..];
      InsertBehind(x, s, t);
      [s[0]] + t
  }

  /** `Newer` is transitive. */
  lemma NewerTransitive(a: Record, b: Record, c: Record)
    requires Newer(a, b) && Newer(b, c)
    ensures Newer(a, c)
  {
  }

  /** A record newer than the head of a sorted list can go in front of it. */
  lemma InsertFront(x: Record, s: seq<Record>)
    requires s != [] && NewestFirst(s) && Newer(x, s[0])
    ensures NewestFirst([x] + s)
  {
    var r := [x] + s;
    forall i, j | 0 <= i < j < |r| ensures Newer(r[i], r[j]) {
      if i == 0 {
        if j > 1 {
          NewerTransitive(x, s[0], s[j - 1]);
        }
      } else {
        assert r[i] == s[i - 1] && r[j] == s[j - 1];
      }
    }
  }

  /** When `x` goes behind the head of `s`, the head stays newer than everything after it. */
  lemma InsertBehind(x: Record, s: seq<Record>, t: seq<Record>)
    requires s != [] && NewestFirst(s) && !Newer(x, s[0])
    requires NewestFirst(t) && multiset(t) == multiset(s[1..]) + multiset{x}
    ensures NewestFirst([s[0]] + t)
  {
    NewerTotal(x, s[0]);
    forall k | 0 <= k < |t| ensures Newer(s[0], t[k]) {
      assert t[k] in multiset(t);
      if t[k] != x {
        assert t[k] in s[1..];
      }
    }
    var r := [s[0]] + t;
    forall i, j | 0 <= i < j < |r| ensures Newer(r[i], r[j]) {
      if i == 0 {
        assert r[j] == t[j - 1];
      } else {
        assert r[i] == t[i - 1] && r[j] == t[j - 1];
      }
    }
  }

  /** The ordered statement: the same records, newest first, and among equal dates the higher id first. */
  function SortNewest(s: seq<Record>): (r: seq<Record>)
    ensures |r| == |s|
    ensures NewestFirst(r)
    ensures multiset(r) == multiset(s)
  {
    if s == [] then []
    else
      assert s == [s[0]] + s[1..];
      InsertNewest(s[0], SortNewest(s[1..]))
  }

  /** `OFFSET offset LIMIT limit`. */
  function Window(s: seq<Record>, offset: nat, limit: nat): (r: seq<Record>)
    ensures |r| <= limit
    ensures offset <= |s| ==> r == s[offset..if offset + limit <= |s| then offset + limit else |s|]
    ensures offset > |s| ==> r == []
  {
    var lo := if offset <= |s| then offset else |s|;
    var hi := if offset + limit <= |s| then offset + limit else |s|;
    s[lo..hi]
  }

  /** What `list_transactions` returns: the matching records, newest first, then the page. */
  function Listing(rs: seq<Record>, q: Query, offset: nat, limit: nat): seq<Record> {
    Window(SortNewest(Selected(rs, q)), offset, limit)
  }

  /** A page holds at most `limit` records, each a stored record that matches the query, newest first. */
  lemma ListingFacts(rs: seq<Record>, q: Query, offset: nat, limit: nat)
    ensures |Listing(rs, q, offset, limit)| <= limit
    ensures forall x :: x in Listing(rs, q, offset, limit) ==> x in rs && Matches(x, q)
    ensures NewestFirst(Listing(rs, q, offset, limit))
  {
    var all := SortNewest(Selected(rs, q));
    var page := Listing(rs, q, offset, limit);
    WindowOf(all, offset, limit);
    forall x | x in page ensures x in rs && Matches(x, q) {
      assert x in multiset(all);
    }
  }

  /** A page of a list sorted newest first is sorted too, and holds only records of the list. */
  lemma WindowOf(s: seq<Record>, offset: nat, limit: nat)
    requires NewestFirst(s)
    ensures NewestFirst(Window(s, offset, limit))
    ensures forall x :: x in Window(s, offset, limit) ==> x in s
  {
    var w := Window(s, offset, limit);
    if offset <= |s| {
      forall i, j | 0 <= i < j < |w| ensures Newer(w[i], w[j]) {
        assert w[i] == s[offset + i] && w[j] == s[offset + j];
      }
      forall x | x in w ensures x in s {
        var i :| 0 <= i < |w| && w[i] == x;
        assert s[offset + i] == x;
      }
    }
  }

  /** Two consecutive pages together are the page as long as both. */
  lemma PagesConcatenate(rs: seq<Record>, q: Query, offset: nat, a: nat, b: nat)
    ensures Listing(rs, q, offset, a) + Listing(rs, q, offset + a, b) == Listing(rs, q, offset, a + b)
  {
    var s := SortNewest(Selected(rs, q));
    WindowsConcatenate(s, offset, a, b);
  }

  lemma WindowsConcatenate(s: seq<Record>, offset: nat, a: nat, b: nat)
    ensures Window(s, offset, a) + Window(s, offset + a, b) == Window(s, offset, a + b)
  {
    var n := |s|;
    var m1 := if offset + a <= n then offset + a else n;
    var m2 := if offset + a + b <= n then offset + a + b else n;
    if offset <= n {
      assert s[offset..m1] + s[m1..m2] == s[offset..m2];
    }
  }

  /** One page from the start that is long enough holds every matching record exactly as often as the store does. */
  lemma ListingComplete(rs: seq<Record>, q: Query, limit: nat)
    requires limit >= |rs|
    ensures multiset(Listing(rs, q, 0, limit)) == multiset(Selected(rs, q))
  {
    assert SortNewest(Selected(rs, q))[0..|Selected(rs, q)|] == SortNewest(Selected(rs, q));
  }

  /**
   * The patch sets a NOT NULL column (`tx_type`, `amount`, `currency`,
   * `occurred_on`) to null: `setattr` runs, and the commit refuses the row.
   */
  predicate SetsNull(p: Patch) {
    p.txType == Some(None) || p.amount == Some(None) || p.currency == Some(None) || p.occurredOn == Some(None)
  }

  /**
   * The columns after the patch: each column `p` sets takes its value and
   * every other column keeps its own; none when a NOT NULL column is set to null.
   */
  function ApplyPatch(t: Tx, p: Patch): (r: Option<Tx>)
    ensures r.None? <==> SetsNull(p)
    ensures r.Some? ==> r.value.txType == if p.txType.Some? then p.txType.value.value else t.txType
    ensures r.Some? ==> r.value.amount == if p.amount.Some? then p.amount.value.value else t.amount
    ensures r.Some? ==> r.value.currency == if p.currency.Some? then p.currency.value.value else t.currency
    ensures r.Some? ==> r.value.category == if p.category.Some? then p.category.value else t.category
    ensures r.Some? ==> r.value.bucket == if p.bucket.Some? then p.bucket.value else t.bucket
    ensures r.Some? ==> r.value.occurredOn == if p.occurredOn.Some? then p.occurredOn.value.value else t.occurredOn
    ensures r.Some? ==> r.value.note == if p.note.Some? then p.note.value else t.note
  {
    if SetsNull(p) then None
    else
      Some(Tx(
        if p.txType.Some? then p.txType.value.value else t.txType,
        if p.amount.Some? then p.amount.value.value else t.amount,
        if p.currency.Some? then p.currency.value.value else t.currency,
        if p.category.Some? then p.category.value else t.category,
        if p.bucket.Some? then p.bucket.value else t.bucket,
        if p.occurredOn.Some? then p.occurredOn.value.value else t.occurredOn,
        if p.note.Some? then p.note.value else t.note))
  }

  const NoChange: Patch := Patch(None, None, None, None, None, None, None)

  /** An empty patch changes nothing, and applying a patch twice is applying it once. */
  lemma PatchLaws(t: Tx, p: Patch)
    ensures ApplyPatch(t, NoChange) == Some(t)
    ensures ApplyPatch(t, p).Some? ==> ApplyPatch(ApplyPatch(t, p).value, p) == ApplyPatch(t, p)
  {
  }

  /** Two patches that both succeed act as one in which the later wins field by field. */
  lemma PatchCompose(t: Tx, p: Patch, p': Patch)
    requires ApplyPatch(t, p).Some?
    ensures ApplyPatch(ApplyPatch(t, p).value, p') == ApplyPatch(t, Patch(
      if p'.txType.Some? then p'.txType else p.txType,
      if p'.amount.Some? then p'.amount else p.amount,
      if p'.currency.Some? then p'.currency else p.currency,
      if p'.category.Some? then p'.category else p.category,
      if p'.bucket.Some? then p'.bucket else p.bucket,
      if p'.occurredOn.Some? then p'.occurredOn else p.occurredOn,
      if p'.note.Some? then p'.note else p.note))
  {
  }

  /** The position of the record with id `id`. */
  function IndexOf(rs: seq<Record>, id: int): (r: Option<nat>)
    ensures r.Some? ==> r.value < |rs| && rs[r.value].id == id && forall j :: 0 <= j < r.value ==> rs[j].id != id
    ensures r.None? ==> forall j :: 0 <= j < |rs| ==> rs[j].id != id
  {
    if rs == [] then None
    else if rs[0].id == id then Some(0)
    else
      var r := IndexOf(rs[1..], id);
      if r.Some? then Some(r.value + 1) else None
  }

  /** Ids are positive, below the next one to hand out, and pairwise distinct. */
  predicate IdsValid(rs: seq<Record>, nextId: int) {
    && nextId >= 1
    && (forall i :: 0 <= i < |rs| ==> 1 <= rs[i].id < nextId)
    && (forall i, j :: 0 <= i < j < |rs| ==> rs[i].id != rs[j].id)
  }

  lemma NewerTotal(a: Record, b: Record)
    ensures Newer(a, b) || Newer(b, a)
  {
  }

  class Store {
    var records: seq<Record>
    var nextId: int

    predicate Valid()
      reads this
    {
      IdsValid(records, nextId)
    }

    /** An empty table; the first id is 1. */
    constructor()
      ensures Valid()
      ensures records == [] && nextId == 1
    {
      records := [];
      nextId := 1;
    }

    /** `create_transaction`: stores the payload as given, under a fresh id, with no bucket inference. */
    method Create(tx: Tx) returns (rec: Record)
      requires Valid()
      modifies this
      ensures Valid()
      ensures rec == Record(old(nextId), tx)
      ensures records == old(records) + [rec]
      ensures nextId == old(nextId) + 1
    {
      rec := Record(nextId, tx);
      records := records + [rec];
      nextId := nextId + 1;
    }

    /** `get_transaction`: the record with that id, if any. */
    function Get(id: int): (r: Option<Record>)
      reads this
      ensures r.Some? ==> r.value in records && r.value.id == id
      ensures r.None? ==> forall x :: x in records ==> x.id != id
    {
      var i := IndexOf(records, id);
      if i.Some? then Some(records[i.value]) else None
    }

    /** `list_transactions`: the WHERE clauses one at a time, then the order, then the page. */
    method List(limit: nat, offset: nat, q: Query) returns (out: seq<Record>)
      ensures out == Listing(records, q, offset, limit)
    {
      var rows := records;
      KeepAllOf(records);
      KeepSame(records, x => true, x => Stage(x, q, 0));
      rows := Where(records, rows, q, 0);
      rows := Where(records, rows, q, 1);
      rows := Where(records, rows, q, 2);
      rows := Where(records, rows, q, 3);
      rows := Where(records, rows, q, 4);
      KeepSame(records, x => Stage(x, q, 5), x => Matches(x, q));
      out := Window(SortNewest(rows), offset, limit);
    }

    /**
     * `update_transaction` after `get_transaction`: sets exactly the fields the
     * patch carries. An unknown id, or a null for a NOT NULL column (the
     * commit fails and rolls back), changes nothing.
     */
    method Update(id: int, p: Patch) returns (r: Result<Record, UpdateError>)
      requires Valid()
      modifies this
      ensures Valid()
      ensures nextId == old(nextId)
      ensures IndexOf(old(records), id).None? ==> r == Failure(NotFound) && records == old(records)
      ensures IndexOf(old(records), id).Some? && SetsNull(p) ==> r == Failure(NullColumn) && records == old(records)
      ensures IndexOf(old(records), id).Some? && !SetsNull(p) ==>
        var i := IndexOf(old(records), id).value;
        && r == Success(Record(id, ApplyPatch(old(records)[i].tx, p).value))
        && records == old(records)[i := r.value]
    {
      var i := IndexOf(records, id);
      if i.None? {
        return Failure(NotFound);
      }
      if SetsNull(p) {
        return Failure(NullColumn);
      }
      var t := records[i.value].tx;
      if p.txType.Some? { t := t.(txType := p.txType.value.value); }
      if p.amount.Some? { t := t.(amount := p.amount.value.value); }
      if p.currency.Some? { t := t.(currency := p.currency.value.value); }
      if p.category.Some? { t := t.(category := p.category.value); }
      if p.bucket.Some? { t := t.(bucket := p.bucket.value); }
      if p.occurredOn.Some? { t := t.(occurredOn := p.occurredOn.value.value); }
      if p.note.Some? { t := t.(note := p.note.value); }
      r := Success(Record(id, t));
      records := records[i.value := r.value];
    }

    /** `delete_transaction`: removes the record with that id and no other. */
    method Delete(id: int) returns (found: bool)
      requires Valid()
      modifies this
      ensures Valid()
      ensures nextId == old(nextId)
      ensures found == IndexOf(old(records), id).Some?
      ensures !found ==> records == old(records)
      ensures found ==>
        var i := IndexOf(old(records), id).value;
        records == old(records)[..i] + old(records)[i + 1..]
      ensures forall x :: x in records <==> x in old(records) && x.id != id
    {
      var i := IndexOf(records, id);
      if i.None? {
        return false;
      }
      RemoveAt(records, nextId, i.value);
      records := records[..i.value] + records[i.value + 1..];
      found := true;
    }
  }

  /** Removing the record at `i` keeps the ids valid and leaves exactly the records with another id. */
  lemma RemoveAt(rs: seq<Record>, nextId: int, i: nat)
    requires IdsValid(rs, nextId) && i < |rs|
    ensures IdsValid(rs[..i] + rs[i + 1..], nextId)
    ensures forall x :: x in rs[..i] + rs[i + 1..] <==> x in rs && x.id != rs[i].id
  {
    var r := rs[..i] + rs[i + 1..];
    assert forall k :: 0 <= k < |r| ==> r[k] == rs[if k < i then k else k + 1];
    forall x | x in rs ensures x in r <==> x.id != rs[i].id {
      var k :| 0 <= k < |rs| && rs[k] == x;
      if k < i {
        assert r[k] == x;
      } else if k > i {
        assert r[k - 1] == x;
      }
    }
  }

  /**
   * Adds the `k`-th WHERE clause of `list_transactions` to `rows`, the records
   * `rs` filtered by the clauses before it; a filter that is not given adds
   * nothing.
   */
  method Where(ghost rs: seq<Record>, rows: seq<Record>, q: Query, k: nat) returns (out: seq<Record>)
    requires k < 5 && rows == Keep(rs, x => Stage(x, q, k))
    ensures out == Keep(rs, x => Stage(x, q, k + 1))
  {
    out := rows;
    if k == 0 && Given(q.txType) {
      var p := (x: Record) => TypeLabel(x.tx.txType) == q.txType.value;
      out := Keep(rows, p);
      Refine(rs, rows, q, k, true, p);
    } else if k == 1 && Given(q.category) {
      var p := (x: Record) => x.tx.category == Some(q.category.value);
      out := Keep(rows, p);
      Refine(rs, rows, q, k, true, p);
    } else if k == 2 && Given(q.bucket) {
      var p := (x: Record) => x.tx.bucket == Some(q.bucket.value);
      out := Keep(rows, p);
      Refine(rs, rows, q, k, true, p);
    } else if k == 3 && q.dateFrom.Some? {
      var p := (x: Record) => DateLe(q.dateFrom.value, x.tx.occurredOn);
      out := Keep(rows, p);
      Refine(rs, rows, q, k, true, p);
    } else if k == 4 && q.dateTo.Some? {
      var p := (x: Record) => DateLe(x.tx.occurredOn, q.dateTo.value);
      out := Keep(rows, p);
      Refine(rs, rows, q, k, true, p);
    } else {
      Refine(rs, rows, q, k, false, x => true);
    }
  }

  /** Keeping everything keeps the sequence as it is. */
  lemma {:induction false} KeepAllOf(rs: seq<Record>)
    ensures Keep(rs, x => true) == rs
  {
    if rs != [] {
      KeepAllOf(rs[1..]);
    }
  }

  /**
   * One WHERE clause of the listing: applied when `given` (by a filter `p`
   * that agrees with the clause), skipped otherwise, the rows go from the
   * first `k` clauses to the first `k + 1`.
   */
  lemma Refine(rs: seq<Record>, rows: seq<Record>, q: Query, k: nat, given: bool, p: Record -> bool)
    requires k < 5
    requires rows == Keep(rs, x => Stage(x, q, k))
    requires given ==> forall x :: p(x) == Criterion(x, q, k)
    requires !given ==> forall x :: Criterion(x, q, k)
    ensures (if given then Keep(rows, p) else rows) == Keep(rs, x => Stage(x, q, k + 1))
  {
    forall x ensures Stage(x, q, k + 1) == (Stage(x, q, k) && Criterion(x, q, k)) {
      if Stage(x, q, k) && Criterion(x, q, k) {
        forall j | 0 <= j < k + 1 ensures Criterion(x, q, j) {
          if j < k {
            assert Criterion(x, q, j);
          }
        }
      }
    }
    if given {
      KeepKeep(rs, x => Stage(x, q, k), p, x => Stage(x, q, k + 1));
    } else {
      KeepSame(rs, x => Stage(x, q, k), x => Stage(x, q, k + 1));
    }
  }
}
