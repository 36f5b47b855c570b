/**
 * The price reconciler, `check_fraud`.  Bill records and the rows of the
 * reference table `mrp_reference(item, mrp_price)` are both keyed by their
 * normalized item name; every bill record is left-joined against the table,
 * and each joined row gets its expected price (reference price times
 * quantity), the amount billed beyond it and a two-way status.
 *
 * pandas' NaN is modelled as an absent value: a bill record without a
 * matching table row, or whose matching row holds a NULL price, gets no
 * reference, expected or extra amount, and is "Valid".  Arithmetic is exact.
 */
module Reconciler {
  import opened Options
  import opened Sequences
  import opened PyText
  import opened Tokenizer

  /** One row of the reference table; the price column may hold NULL. */
  datatype ReferenceRow = ReferenceRow(item: string, mrpPrice: Option<real>)

  /** The status column: "Valid" or "Fraud Detected". */
  datatype Status = Valid | FraudDetected

  /** One row of the merged table, with the columns item, quantity,
      billed_mrp, mrp_price, expected_price, extra_amount and status. */
  datatype Row = Row(
    item: string,
    quantity: int,
    billedMrp: real,
    mrpPrice: Option<real>,
    expectedPrice: Option<real>,
    extraAmount: Option<real>,
    status: Status)

  /** Reading the reference table raised; the exception reaches the caller. */
  datatype StoreError = StoreUnavailable

  // ---------------------------------------------------------------------
  // Item-name normalization
  // ---------------------------------------------------------------------

  /** `name.strip().lower()`, applied to bill items and reference items
      alike. */
  function Normalize(name: string): (key: string)
    ensures |key| <= |name|
    ensures key == [] || (!IsSpace(key[0]) && !IsSpace(key[|key| - 1]))
  {
    LowerKeepsEnds(Strip(name));
    Lower(Strip(name))
  }

  lemma LowerKeepsEnds(s: string)
    requires s == [] || (!IsSpace(s[0]) && !IsSpace(s[|s| - 1]))
    ensures Lower(s) == [] || (!IsSpace(Lower(s)[0]) && !IsSpace(Lower(s)[|s| - 1]))
  {
    if s != [] {
      LowerKeepsSpace(s, 0);
      LowerKeepsSpace(s, |s| - 1);
    }
  }

  /** A key has no upper-case letter and no whitespace at either end. */
  lemma NormalizeKey(name: string)
    ensures forall i :: 0 <= i < |Normalize(name)| ==> !IsUpper(Normalize(name)[i])
    ensures Normalize(name) == [] || (!IsSpace(Normalize(name)[0]) && !IsSpace(Normalize(name)[|Normalize(name)| - 1]))
  {
    var stripped := Strip(name);
    var key := Lower(stripped);
    assert key == Normalize(name);
    if key != [] {
      LowerKeepsSpace(stripped, 0);
      LowerKeepsSpace(stripped, |key| - 1);
    }
  }

  /** A name without whitespace at its ends, as the tokenizer produces
      them, is only lowered; whitespace inside it is kept as it is. */
  lemma NormalizeTrimmed(name: string)
    requires name == [] || (!IsSpace(name[0]) && !IsSpace(name[|name| - 1]))
    ensures Normalize(name) == Lower(name)
  {
  }

  /** A name padded with whitespace on either side has the key of the name
      itself: only the padding is removed, and whitespace inside the name,
      runs of it included, is kept as it is (lowering never touches it). */
  lemma NormalizePadded(a: string, name: string, b: string)
    requires AllSpace(a) && AllSpace(b)
    requires name == [] || (!IsSpace(name[0]) && !IsSpace(name[|name| - 1]))
    ensures Normalize(a + name + b) == Lower(name)
  {
    StripPadded(a, name, b);
  }

  /** A key is its own key, so normalizing a second time changes nothing. */
  lemma NormalizeIdempotent(name: string)
    ensures Normalize(Normalize(name)) == Normalize(name)
  {
    NormalizeKey(name);
    LowerIdempotent(Strip(name));
  }

  /** Matching ignores letter case: a name and its lower-case form have the
      same key. */
  lemma NormalizeIgnoresCase(name: string)
    ensures Normalize(Lower(name)) == Normalize(name)
  {
    StripLower(name);
    LowerIdempotent(Strip(name));
  }

  // ---------------------------------------------------------------------
  // Classification of one joined row
  // ---------------------------------------------------------------------

  /** `mrp_price * quantity`: the price the quantity should have cost. */
  function ExpectedPrice(mrp: real, quantity: int): real {
    mrp * (quantity as real)
  }

  /** What a merged row must satisfy, stated independently of how it is
      computed: without a reference price there is no expected or extra
      amount and the row is valid; with one, the expected price is the
      reference price times the quantity, expected plus extra is the billed
      amount, and the row is fraudulent exactly when more than the expected
      price was billed. */
  predicate Consistent(row: Row) {
    && (row.mrpPrice.None? ==>
          row.expectedPrice.None? && row.extraAmount.None? && row.status == Valid)
    && (row.mrpPrice.Some? ==>
          && row.expectedPrice == Some(ExpectedPrice(row.mrpPrice.value, row.quantity))
          && row.extraAmount.Some?
          && row.expectedPrice.value + row.extraAmount.value == row.billedMrp)
    && (row.status == FraudDetected <==>
          row.mrpPrice.Some? && row.billedMrp > ExpectedPrice(row.mrpPrice.value, row.quantity))
  }

  /** The columns `check_fraud` computes for one bill record, already
      normalized, joined to the reference price `mrp` (absent when nothing
      matched).  The row keeps the record's item, quantity and billed amount,
      and is consistent. */
  function Classify(record: BillRecord, mrp: Option<real>): (row: Row)
    ensures Carries(row, record) && row.mrpPrice == mrp
    ensures Consistent(row)
  {
    var expected := match mrp case None => None case Some(p) => Some(ExpectedPrice(p, record.quantity));
    var extra := match expected case None => None case Some(e) => Some(record.billedMrp - e);
    var status := if mrp.Some? && extra.Some? && extra.value > 0.0 then FraudDetected else Valid;
    Row(record.item, record.quantity, record.billedMrp, mrp, expected, extra, status)
  }

  /** The row keeps the record's item, quantity and billed amount. */
  predicate Carries(row: Row, record: BillRecord) {
    row.item == record.item && row.quantity == record.quantity && row.billedMrp == record.billedMrp
  }

  /** The consistency rule leaves no freedom: two consistent rows that agree
      on item, quantity, billed amount and reference price are equal. */
  lemma ConsistentDetermined(a: Row, b: Row)
    requires Consistent(a) && Consistent(b)
    requires a.item == b.item && a.quantity == b.quantity
    requires a.billedMrp == b.billedMrp && a.mrpPrice == b.mrpPrice
    ensures a == b
  {
    if a.mrpPrice.Some? {
      assert a.extraAmount.value == a.billedMrp - a.expectedPrice.value;
      assert b.extraAmount.value == b.billedMrp - b.expectedPrice.value;
    }
  }

  // ---------------------------------------------------------------------
  // Normalizing both tables
  // ---------------------------------------------------------------------

  /** A bill record with its item name replaced by its key. */
  function Keyed(record: BillRecord): BillRecord {
    record.(item := Normalize(record.item))
  }

  /** The bill with every item name replaced by its key; nothing else
      changes. */
  function NormalizeBill(bill: seq<BillRecord>): (keyed: seq<BillRecord>)
    ensures |keyed| == |bill|
    ensures forall i :: 0 <= i < |bill| ==> keyed[i] == Keyed(bill[i])
  {
    seq(|bill|, i requires 0 <= i < |bill| => Keyed(bill[i]))
  }

  /** The reference table with every item name replaced by its key; prices
      stay as they are. */
  function NormalizeTable(refs: seq<ReferenceRow>): (keyed: seq<ReferenceRow>)
    ensures |keyed| == |refs|
    ensures forall j :: 0 <= j < |refs| ==>
      keyed[j] == ReferenceRow(Normalize(refs[j].item), refs[j].mrpPrice)
  {
    seq(|refs|, j requires 0 <= j < |refs| => ReferenceRow(Normalize(refs[j].item), refs[j].mrpPrice))
  }

  /** Normalizing an already normalized bill changes nothing. */
  lemma NormalizeBillIdempotent(bill: seq<BillRecord>)
    ensures NormalizeBill(NormalizeBill(bill)) == NormalizeBill(bill)
  {
    forall i | 0 <= i < |bill|
      ensures NormalizeBill(NormalizeBill(bill))[i] == NormalizeBill(bill)[i]
    {
      NormalizeIdempotent(bill[i].item);
    }
  }

  // ---------------------------------------------------------------------
  // The left join on normalized names
  // ---------------------------------------------------------------------

  /** The prices of the table rows named `key`, in table order. */
  function MatchingPrices(key: string, table: seq<ReferenceRow>): (ps: seq<Option<real>>)
    ensures |ps| <= |table|
    decreases |table|
  {
    if table == [] then []
    else
      (if table[0].item == key then [table[0].mrpPrice] else [])
      + MatchingPrices(key, table[1..])
  }

  /** A price is matched exactly when some table row named `key` holds it. */
  lemma {:induction false} MatchingPricesMember(key: string, table: seq<ReferenceRow>, p: Option<real>)
    ensures p in MatchingPrices(key, table) <==>
      exists j :: 0 <= j < |table| && table[j] == ReferenceRow(key, p)
    decreases |table|
  {
    if table != [] {
      var tail := table[1..];
      MatchingPricesMember(key, tail, p);
      if exists j :: 0 <= j < |table| && table[j] == ReferenceRow(key, p) {
        var j :| 0 <= j < |table| && table[j] == ReferenceRow(key, p);
        if j > 0 {
          assert tail[j - 1] == table[j];
        }
      }
      if p in MatchingPrices(key, tail) {
        var j :| 0 <= j < |tail| && tail[j] == ReferenceRow(key, p);
        assert table[j + 1] == tail[j];
      }
    }
  }

  /** No two table rows have the same name. */
  predicate DistinctNames(table: seq<ReferenceRow>) {
    forall i, j :: 0 <= i < j < |table| ==> table[i].item != table[j].item
  }

  lemma DistinctNamesTail(table: seq<ReferenceRow>)
    requires DistinctNames(table) && table != []
    ensures DistinctNames(table[1..])
  {
    var tail := table[1..];
    forall a, b | 0 <= a < b < |tail|
      ensures tail[a].item != tail[b].item
    {
      assert tail[a] == table[a + 1] && tail[b] == table[b + 1];
    }
  }

  /** A key no table row is named by matches nothing. */
  lemma {:induction false} MatchingPricesNone(key: string, table: seq<ReferenceRow>)
    requires forall j :: 0 <= j < |table| ==> table[j].item != key
    ensures MatchingPrices(key, table) == []
    decreases |table|
  {
    if table != [] {
      assert forall j :: 0 <= j < |table[1..]| ==> table[1..][j] == table[j + 1];
      MatchingPricesNone(key, table[1..]);
    }
  }

  /** With distinct names, the name of table row `j` matches that row's
      price and nothing else. */
  lemma {:induction false} MatchingPricesUnique(table: seq<ReferenceRow>, j: int)
    requires DistinctNames(table)
    requires 0 <= j < |table|
    ensures MatchingPrices(table[j].item, table) == [table[j].mrpPrice]
    decreases |table|
  {
    var key := table[j].item;
    var tail := table[1..];
    if j == 0 {
      forall k | 0 <= k < |tail|
        ensures tail[k].item != key
      {
        assert tail[k] == table[k + 1];
      }
      MatchingPricesNone(key, tail);
    } else {
      assert table[0].item != key;
      DistinctNamesTail(table);
      assert tail[j - 1] == table[j];
      MatchingPricesUnique(tail, j - 1);
    }
  }

  /** The merged rows one normalized bill record gives: one per table row
      of the same name, in table order, or a single unmatched row when no
      row has that name. */
  function JoinRecord(record: BillRecord, table: seq<ReferenceRow>): (rows: seq<Row>)
    ensures rows != []
  {
    var ps := MatchingPrices(record.item, table);
    if ps == [] then [Classify(record, None)]
    else seq(|ps|, i requires 0 <= i < |ps| => Classify(record, ps[i]))
  }

  /** Every row a record gives keeps that record's item, quantity and billed
      amount and is consistent; its price is one a table row of that name
      holds, or is absent because no row has that name. */
  lemma JoinRecordRows(record: BillRecord, table: seq<ReferenceRow>, row: Row)
    requires row in JoinRecord(record, table)
    ensures Carries(row, record) && Consistent(row)
    ensures row.mrpPrice in MatchingPrices(record.item, table)
         || (row.mrpPrice.None? && MatchingPrices(record.item, table) == [])
  {
  }

  /** A record named like exactly table row `j` gives one row, priced from
      that table row. */
  lemma JoinRecordMatched(record: BillRecord, table: seq<ReferenceRow>, j: int)
    requires DistinctNames(table)
    requires 0 <= j < |table| && table[j].item == record.item
    ensures JoinRecord(record, table) == [Classify(record, table[j].mrpPrice)]
  {
    MatchingPricesUnique(table, j);
  }

  /** A record named like no table row gives one unpriced, valid row. */
  lemma JoinRecordUnmatched(record: BillRecord, table: seq<ReferenceRow>)
    requires forall j :: 0 <= j < |table| ==> table[j].item != record.item
    ensures JoinRecord(record, table) == [Classify(record, None)]
  {
    MatchingPricesNone(record.item, table);
  }

  /** Each bill record's merged rows, record by record. */
  function JoinedRecords(bill: seq<BillRecord>, table: seq<ReferenceRow>): (rss: seq<seq<Row>>)
    ensures |rss| == |bill|
    ensures forall i :: 0 <= i < |bill| ==> rss[i] == JoinRecord(bill[i], table)
  {
    seq(|bill|, i requires 0 <= i < |bill| => JoinRecord(bill[i], table))
  }

  /** `pd.merge(bill, table, on="item", how="left")` followed by the
      computed columns: the rows of every bill record, in bill order. */
  function LeftJoin(bill: seq<BillRecord>, table: seq<ReferenceRow>): (rows: seq<Row>)
    ensures |rows| >= |bill|
  {
    var rss := JoinedRecords(bill, table);
    FlattenNonEmpty(rss);
    Flatten(rss)
  }

  /** A one-record bill gives that record's rows. */
  lemma LeftJoinSingle(record: BillRecord, table: seq<ReferenceRow>)
    ensures LeftJoin([record], table) == JoinRecord(record, table)
  {
    var rss := JoinedRecords([record], table);
    assert rss[0] == JoinRecord(record, table);
    assert rss[1..] == [];
    assert Flatten(rss[1..]) == [];
    assert JoinRecord(record, table) + [] == JoinRecord(record, table);
  }

  /** Every merged row keeps the item, quantity and billed amount of some
      bill record, and is consistent. */
  lemma LeftJoinRows(bill: seq<BillRecord>, table: seq<ReferenceRow>, row: Row)
    requires row in LeftJoin(bill, table)
    ensures Consistent(row)
    ensures exists i :: 0 <= i < |bill| && Carries(row, bill[i])
  {
    var rss := JoinedRecords(bill, table);
    FlattenMember(rss, row);
    var i :| 0 <= i < |rss| && row in rss[i];
    JoinRecordRows(bill[i], table, row);
  }

  /** Joining a bill in two parts joins each part: rows keep bill order and
      a record's rows do not depend on the other records. */
  lemma LeftJoinAppend(a: seq<BillRecord>, b: seq<BillRecord>, table: seq<ReferenceRow>)
    ensures LeftJoin(a + b, table) == LeftJoin(a, table) + LeftJoin(b, table)
  {
    assert JoinedRecords(a + b, table) == JoinedRecords(a, table) + JoinedRecords(b, table) by {
      forall i | 0 <= i < |a + b|
        ensures JoinedRecords(a + b, table)[i] == (JoinedRecords(a, table) + JoinedRecords(b, table))[i]
      {
        if i < |a| {
          assert (a + b)[i] == a[i];
        } else {
          assert (a + b)[i] == b[i - |a|];
        }
      }
    }
    FlattenAppend(JoinedRecords(a, table), JoinedRecords(b, table));
  }

  /** With distinct names in the table the join gives exactly one row per
      bill record, in bill order: the single row `JoinRecord` gives it. */
  lemma LeftJoinUnique(bill: seq<BillRecord>, table: seq<ReferenceRow>)
    requires DistinctNames(table)
    ensures |LeftJoin(bill, table)| == |bill|
    ensures forall i :: 0 <= i < |bill| ==> JoinRecord(bill[i], table) == [LeftJoin(bill, table)[i]]
  {
    var rss := JoinedRecords(bill, table);
    forall i | 0 <= i < |rss|
      ensures |rss[i]| == 1
    {
      if exists j :: 0 <= j < |table| && table[j].item == bill[i].item {
        var j :| 0 <= j < |table| && table[j].item == bill[i].item;
        JoinRecordMatched(bill[i], table, j);
      } else {
        JoinRecordUnmatched(bill[i], table);
      }
    }
    FlattenSingletons(rss);
  }

  // ---------------------------------------------------------------------
  // check_fraud
  // ---------------------------------------------------------------------

  /** `check_fraud(bill)`, with the reference table given as `store` (absent
      when reading it raises).  An empty bill gives an empty table without
      reading the store; otherwise a failing store fails the call, and a
      readable one gives at least one row per bill record. */
  function CheckFraud(bill: seq<BillRecord>, store: Option<seq<ReferenceRow>>): (r: Result<seq<Row>, StoreError>)
    ensures bill == [] ==> r == Success([])
    ensures bill != [] ==> (r.Failure? <==> store.None?)
    ensures r.Success? ==> |r.value| >= |bill|
  {
    if bill == [] then Success([])
    else
      match store
      case None => Failure(StoreUnavailable)
      case Some(refs) =>
        Success(LeftJoin(NormalizeBill(bill), NormalizeTable(refs)))
  }

  /** Every row `check_fraud` returns is consistent and belongs to one of
      the bill's records: it has that record's normalized item name,
      quantity and billed amount. */
  lemma CheckFraudRows(bill: seq<BillRecord>, store: Option<seq<ReferenceRow>>, row: Row)
    requires CheckFraud(bill, store).Success? && row in CheckFraud(bill, store).value
    ensures Consistent(row)
    ensures exists i :: 0 <= i < |bill| && Carries(row, Keyed(bill[i]))
  {
    var keyed := NormalizeBill(bill);
    LeftJoinRows(keyed, NormalizeTable(store.value), row);
    var i :| 0 <= i < |keyed| && Carries(row, keyed[i]);
    assert keyed[i] == Keyed(bill[i]);
  }

  /** No two reference rows share a normalized name.  The table's primary
      key makes the raw names distinct; this asks the same of the keys. */
  predicate UniqueNames(refs: seq<ReferenceRow>) {
    forall i, j :: 0 <= i < j < |refs| ==> Normalize(refs[i].item) != Normalize(refs[j].item)
  }

  lemma UniqueNamesDistinct(refs: seq<ReferenceRow>)
    requires UniqueNames(refs)
    ensures DistinctNames(NormalizeTable(refs))
  {
    var table := NormalizeTable(refs);
    forall i, j | 0 <= i < j < |table|
      ensures table[i].item != table[j].item
    {
      assert table[i].item == Normalize(refs[i].item);
      assert table[j].item == Normalize(refs[j].item);
    }
  }

  /** With unique normalized reference names, `check_fraud` returns exactly
      one row per bill record, in bill order. */
  lemma CheckFraudOneRowEach(bill: seq<BillRecord>, refs: seq<ReferenceRow>)
    requires UniqueNames(refs) && bill != []
    ensures CheckFraud(bill, Some(refs)).Success?
    ensures |CheckFraud(bill, Some(refs)).value| == |bill|
    ensures forall i :: 0 <= i < |bill| ==>
      JoinRecord(Keyed(bill[i]), NormalizeTable(refs)) == [CheckFraud(bill, Some(refs)).value[i]]
  {
    var keyed := NormalizeBill(bill);
    UniqueNamesDistinct(refs);
    LeftJoinUnique(keyed, NormalizeTable(refs));
  }

  /** With unique normalized reference names, the row of a bill record whose
      normalized name is that of reference row `j` is priced from row `j`. */
  lemma CheckFraudMatched(bill: seq<BillRecord>, refs: seq<ReferenceRow>, i: int, j: int)
    requires UniqueNames(refs) && 0 <= i < |bill| && 0 <= j < |refs|
    requires Normalize(refs[j].item) == Normalize(bill[i].item)
    ensures CheckFraud(bill, Some(refs)).Success? && |CheckFraud(bill, Some(refs)).value| == |bill|
    ensures CheckFraud(bill, Some(refs)).value[i] == Classify(Keyed(bill[i]), refs[j].mrpPrice)
  {
    CheckFraudOneRowEach(bill, refs);
    var table := NormalizeTable(refs);
    UniqueNamesDistinct(refs);
    assert table[j].item == Keyed(bill[i]).item;
    JoinRecordMatched(Keyed(bill[i]), table, j);
  }

  /** The row of a bill record whose normalized name no reference row has
      is unpriced, and so valid. */
  lemma CheckFraudUnmatched(bill: seq<BillRecord>, refs: seq<ReferenceRow>, i: int)
    requires UniqueNames(refs) && 0 <= i < |bill|
    requires forall j :: 0 <= j < |refs| ==> Normalize(refs[j].item) != Normalize(bill[i].item)
    ensures CheckFraud(bill, Some(refs)).Success? && |CheckFraud(bill, Some(refs)).value| == |bill|
    ensures CheckFraud(bill, Some(refs)).value[i] == Classify(Keyed(bill[i]), None)
  {
    CheckFraudOneRowEach(bill, refs);
    var table := NormalizeTable(refs);
    assert forall j :: 0 <= j < |table| ==> table[j].item == Normalize(refs[j].item);
    JoinRecordUnmatched(Keyed(bill[i]), table);
  }
}

/**
 * Worked examples of `check_fraud` on a one-line bill against a one-row
 * reference table holding a unit price of 25.0.
 */
module ReconcilerExamples {
  import opened Options
  import opened Tokenizer
  import opened Reconciler

  /** Two units billed at 60.0 against 25.0 each: 50.0 expected, 10.0 extra,
      fraud. */
  lemma Overcharged(name: string, listed: string)
    requires Normalize(name) == Normalize(listed)
    ensures CheckFraud([BillRecord(name, 2, 60.0)], Some([ReferenceRow(listed, Some(25.0))]))
         == Success([Row(Normalize(name), 2, 60.0, Some(25.0), Some(50.0), Some(10.0), FraudDetected)])
  {
    var bill := [BillRecord(name, 2, 60.0)];
    var refs := [ReferenceRow(listed, Some(25.0))];
    CheckFraudMatched(bill, refs, 0, 0);
    OneRow(bill, refs);
    assert ExpectedPrice(25.0, 2) == 50.0;
  }

  /** The same two units billed at 40.0: 10.0 under the expected price,
      valid. */
  lemma WithinPrice(name: string, listed: string)
    requires Normalize(name) == Normalize(listed)
    ensures CheckFraud([BillRecord(name, 2, 40.0)], Some([ReferenceRow(listed, Some(25.0))]))
         == Success([Row(Normalize(name), 2, 40.0, Some(25.0), Some(50.0), Some(-10.0), Valid)])
  {
    var bill := [BillRecord(name, 2, 40.0)];
    var refs := [ReferenceRow(listed, Some(25.0))];
    CheckFraudMatched(bill, refs, 0, 0);
    OneRow(bill, refs);
    assert ExpectedPrice(25.0, 2) == 50.0;
  }

  /** An item the table does not list gets no reference price and is valid,
      whatever was billed. */
  lemma UnknownItem(name: string, listed: string, billed: real)
    requires Normalize(name) != Normalize(listed)
    ensures CheckFraud([BillRecord(name, 1, billed)], Some([ReferenceRow(listed, Some(25.0))]))
         == Success([Row(Normalize(name), 1, billed, None, None, None, Valid)])
  {
    var bill := [BillRecord(name, 1, billed)];
    var refs := [ReferenceRow(listed, Some(25.0))];
    CheckFraudUnmatched(bill, refs, 0);
    OneRow(bill, refs);
  }

  /** A listed item whose price is NULL behaves like an unlisted one. */
  lemma NullPrice(name: string, listed: string, billed: real)
    requires Normalize(name) == Normalize(listed)
    ensures CheckFraud([BillRecord(name, 1, billed)], Some([ReferenceRow(listed, None)]))
         == Success([Row(Normalize(name), 1, billed, None, None, None, Valid)])
  {
    var bill := [BillRecord(name, 1, billed)];
    var refs := [ReferenceRow(listed, None)];
    CheckFraudMatched(bill, refs, 0, 0);
    OneRow(bill, refs);
  }

  /** Two table rows with the same normalized name repeat the bill line,
      once per table row and in table order. */
  lemma DuplicateNames(name: string, first: string, second: string)
    requires Normalize(name) == Normalize(first) == Normalize(second)
    ensures CheckFraud([BillRecord(name, 2, 60.0)],
                       Some([ReferenceRow(first, Some(25.0)), ReferenceRow(second, Some(30.0))]))
         == Success([Row(Normalize(name), 2, 60.0, Some(25.0), Some(50.0), Some(10.0), FraudDetected),
                     Row(Normalize(name), 2, 60.0, Some(30.0), Some(60.0), Some(0.0), Valid)])
  {
    var bill := [BillRecord(name, 2, 60.0)];
    var refs := [ReferenceRow(first, Some(25.0)), ReferenceRow(second, Some(30.0))];
    var record := Keyed(bill[0]);
    SameKeyTwice(refs, record.item);
    TwoRows(record, NormalizeTable(refs));
    OneRecord(bill);
    LeftJoinSingle(record, NormalizeTable(refs));
    assert ExpectedPrice(25.0, 2) == 50.0 && ExpectedPrice(30.0, 2) == 60.0;
  }

  lemma SameKeyTwice(refs: seq<ReferenceRow>, key: string)
    requires |refs| == 2 && Normalize(refs[0].item) == key && Normalize(refs[1].item) == key
    ensures NormalizeTable(refs) == [ReferenceRow(key, refs[0].mrpPrice), ReferenceRow(key, refs[1].mrpPrice)]
  {
    var table := NormalizeTable(refs);
    PairOf(table, ReferenceRow(key, refs[0].mrpPrice), ReferenceRow(key, refs[1].mrpPrice));
  }

  lemma PairOf<T>(s: seq<T>, a: T, b: T)
    requires |s| == 2 && s[0] == a && s[1] == b
    ensures s == [a, b]
  {
  }

  lemma TwoRows(record: BillRecord, table: seq<ReferenceRow>)
    requires table == [ReferenceRow(record.item, Some(25.0)), ReferenceRow(record.item, Some(30.0))]
    ensures JoinRecord(record, table) == [Classify(record, Some(25.0)), Classify(record, Some(30.0))]
  {
    assert table[1..][1..] == [];
    assert MatchingPrices(record.item, table) == [Some(25.0), Some(30.0)];
  }

  lemma OneRecord(bill: seq<BillRecord>)
    requires |bill| == 1
    ensures NormalizeBill(bill) == [Keyed(bill[0])]
  {
  }

  /** A one-line bill checked against a one-row table gives one row. */
  lemma OneRow(bill: seq<BillRecord>, refs: seq<ReferenceRow>)
    requires |bill| == 1 && |refs| == 1
    ensures CheckFraud(bill, Some(refs)).Success?
    ensures CheckFraud(bill, Some(refs)).value == [CheckFraud(bill, Some(refs)).value[0]]
  {
    CheckFraudOneRowEach(bill, refs);
  }
}
