/** The tamper-evident audit log (models/audit.py). Rows are kept in the order of their time stamps, as every
    query sorts them; the hash is a parameter. */
module AuditChain {
  import opened Text

  const GENESIS: string := "GENESIS_BLOCK"

  /** A row: the fields that are hashed, and the two hash columns. An absent column is None. */
  datatype Row = Row(
    logId: string, user: Option<string>, resourceType: string, resourceId: Option<string>,
    action: string, outcome: string, timestamp: nat, timestampText: string,
    previous: Option<string>, hash: Option<string>)

  datatype ChainState = ChainState(lastHash: Option<string>, total: nat)

  function OrElse(o: Option<string>, default: string): string {
    if o.Some? then o.value else default
  }

  /** The fields of the hashed text, in order. */
  function HashedFields(r: Row): seq<string> {
    [r.logId, OrElse(r.user, "System"), r.resourceType, OrElse(r.resourceId, ""), r.action, r.outcome,
     r.timestampText, OrElse(r.previous, "")]
  }

  /** `calculate_hash` */
  function Calculate(hash: string -> string, r: Row): string {
    hash(Join(HashedFields(r), "|"))
  }

  /** No field before the last holds the separator. */
  predicate BarFree(r: Row) {
    forall i | 0 <= i < 7 :: '|' !in HashedFields(r)[i]
  }

  /** The rows agree in every column but the two hashes; what the hashed text cannot tell apart is an absent user
      from "System" and an absent resource from an empty one. */
  predicate SameContent(a: Row, b: Row) {
    a.logId == b.logId && OrElse(a.user, "System") == OrElse(b.user, "System") &&
    a.resourceType == b.resourceType && OrElse(a.resourceId, "") == OrElse(b.resourceId, "") &&
    a.action == b.action && a.outcome == b.outcome && a.timestampText == b.timestampText
  }

  /** The hashed text holds all those columns and nothing else. */
  lemma ContentIsHashed(a: Row, b: Row)
    ensures SameContent(a, b) <==> forall i | 0 <= i < 7 :: HashedFields(a)[i] == HashedFields(b)[i]
    ensures HashedFields(a) == HashedFields(b) <==>
            SameContent(a, b) && OrElse(a.previous, "") == OrElse(b.previous, "")
  {
    var x, y := HashedFields(a), HashedFields(b);
    if forall i | 0 <= i < 7 :: x[i] == y[i] {
      assert x[0] == y[0] && x[1] == y[1] && x[2] == y[2] && x[3] == y[3];
      assert x[4] == y[4] && x[5] == y[5] && x[6] == y[6];
    }
    if x == y { assert x[7] == y[7] && forall i | 0 <= i < 7 :: x[i] == y[i]; }
  }

  predicate AllBarFree(rows: seq<Row>) {
    forall i | 0 <= i < |rows| :: BarFree(rows[i])
  }

  /** The logs have the same length and, row by row, the same hashed fields but for the links. */
  predicate SameContents(a: seq<Row>, b: seq<Row>) {
    |a| == |b| && forall i | 0 <= i < |a| :: SameContent(a[i], b[i])
  }

  // ---- saving

  function LastHash(rows: seq<Row>): string {
    if rows != [] && rows[|rows| - 1].hash.Some? && rows[|rows| - 1].hash.value != ""
    then rows[|rows| - 1].hash.value else GENESIS
  }

  /** The row as it is stored: linked to the last row and hashed. */
  function Linked(hash: string -> string, rows: seq<Row>, r: Row): Row {
    var linked := r.(previous := Some(LastHash(rows)));
    linked.(hash := Some(Calculate(hash, linked)))
  }

  /** Its place in the time order: behind every row that is not younger. */
  function Insert(rows: seq<Row>, r: Row): seq<Row> {
    if rows == [] || rows[|rows| - 1].timestamp <= r.timestamp then rows + [r]
    else Insert(rows[..|rows| - 1], r) + [rows[|rows| - 1]]
  }

  // ---- checking

  function ExpectedPrevious(rows: seq<Row>, i: nat): Option<string>
    requires i < |rows|
  {
    if i == 0 then Some(GENESIS) else rows[i - 1].hash
  }

  /** The row links to its predecessor and carries its own hash. */
  predicate RowIntact(hash: string -> string, rows: seq<Row>, i: nat)
    requires i < |rows|
  {
    rows[i].previous == ExpectedPrevious(rows, i) && rows[i].hash == Some(Calculate(hash, rows[i]))
  }

  predicate Intact(hash: string -> string, rows: seq<Row>) {
    forall i | 0 <= i < |rows| :: RowIntact(hash, rows, i)
  }

  /** The log ids of the first `n` rows that are not intact, in order. */
  function Broken(hash: string -> string, rows: seq<Row>, n: nat): seq<string>
    requires n <= |rows|
  {
    if n == 0 then []
    else Broken(hash, rows, n - 1) + (if RowIntact(hash, rows, n - 1) then [] else [rows[n - 1].logId])
  }

  /** `log_id` is a unique column. */
  predicate UniqueIds(rows: seq<Row>) {
    forall i, j | 0 <= i < j < |rows| :: rows[i].logId != rows[j].logId
  }

  class AuditLog {
    const hash: string -> string
    var rows: seq<Row>
    var chainState: Option<ChainState>

    constructor (h: string -> string)
      ensures hash == h && rows == [] && chainState == None
    {
      hash, rows, chainState := h, [], None;
    }

    /** Saving a new row that carries no hash yet. */
    method Save(r: Row)
      modifies this
      ensures rows == Insert(old(rows), Linked(hash, old(rows), r))
      ensures chainState == Some(ChainState(Linked(hash, old(rows), r).hash, |rows|))
    {
      var row := r;
      if rows != [] && rows[|rows| - 1].hash.Some? && rows[|rows| - 1].hash.value != "" {
        row := row.(previous := rows[|rows| - 1].hash);
      } else {
        row := row.(previous := Some(GENESIS));
      }
      row := row.(hash := Some(Calculate(hash, row)));
      rows := Insert(rows, row);
      chainState := Some(ChainState(row.hash, |rows|));
    }

    /** `verify_chain_quick`: the last row, the cached state, and the link between the last two rows. */
    method VerifyQuick() returns (valid: bool)
      modifies this`chainState
      ensures valid == QuickValid(hash, rows, old(chainState))
      ensures chainState == QuickState(hash, rows, old(chainState))
    {
      if |rows| == 0 { return true; }
      var last := rows[|rows| - 1];
      if last.hash.None? || last.hash.value == "" { return false; }
      if last.hash != Some(Calculate(hash, last)) { return false; }
      if chainState.Some? {
        if chainState.value.lastHash != last.hash { return false; }
        if chainState.value.total != |rows| { return false; }
      } else {
        chainState := Some(ChainState(last.hash, |rows|));
      }
      if |rows| > 1 {
        return last.previous == rows[|rows| - 2].hash;
      } else {
        return last.previous == Some(GENESIS);
      }
    }

    /** `deep_verify_chain`: one pass that compares every link and every hash. */
    method VerifyDeep() returns (valid: bool, corrupted: seq<string>, total: nat)
      requires UniqueIds(rows)
      modifies this`chainState
      ensures corrupted == Broken(hash, rows, |rows|) && valid == (corrupted == []) && total == |rows|
      ensures chainState ==
              if valid && rows != [] then Some(ChainState(rows[|rows| - 1].hash, |rows|)) else old(chainState)
    {
      if |rows| == 0 { return true, [], 0; }
      corrupted := [];
      total := 0;
      var expected := Some(GENESIS);
      while total < |rows|
        invariant total <= |rows|
        invariant expected == if total == 0 then Some(GENESIS) else rows[total - 1].hash
        invariant corrupted == Broken(hash, rows, total)
        invariant forall id | id in corrupted :: exists k | 0 <= k < total :: rows[k].logId == id
      {
        var log := rows[total];
        ghost var before := corrupted;
        total := total + 1;
        assert log.logId !in before;
        if log.previous != expected {
          corrupted := corrupted + [log.logId];
        }
        if log.hash != Some(Calculate(hash, log)) {
          if log.logId !in corrupted { corrupted := corrupted + [log.logId]; }
        }
        expected := log.hash;
      }
      if corrupted == [] {
        chainState := Some(ChainState(expected, total));
      }
      valid := corrupted == [];
    }

    /** `verify_chain`: the quick check, and the deep scan only when it fails. */
    method VerifyChain() returns (valid: bool, corrupted: seq<string>)
      requires UniqueIds(rows)
      modifies this`chainState
      ensures valid == ChainValid(hash, rows, old(chainState))
      ensures corrupted == if QuickValid(hash, rows, old(chainState)) then [] else Broken(hash, rows, |rows|)
      ensures chainState == ChainAfter(hash, rows, old(chainState))
    {
      var quick := VerifyQuick();
      if quick { return true, []; }
      var total;
      valid, corrupted, total := VerifyDeep();
    }
  }

  function QuickValid(hash: string -> string, rows: seq<Row>, state: Option<ChainState>): bool {
    rows == [] ||
    var n := |rows| - 1;
    rows[n].hash.Some? && rows[n].hash.value != "" && RowIntact(hash, rows, n) &&
    (state.Some? ==> state.value == ChainState(rows[n].hash, |rows|))
  }

  /** The quick check rebuilds a missing state once the last row's own hash is right. */
  function QuickState(hash: string -> string, rows: seq<Row>, state: Option<ChainState>): Option<ChainState> {
    if state.None? && rows != [] && rows[|rows| - 1].hash == Some(Calculate(hash, rows[|rows| - 1])) &&
       rows[|rows| - 1].hash.value != ""
    then Some(ChainState(rows[|rows| - 1].hash, |rows|)) else state
  }

  predicate ChainValid(hash: string -> string, rows: seq<Row>, state: Option<ChainState>) {
    QuickValid(hash, rows, state) || Broken(hash, rows, |rows|) == []
  }

  /** The cached state after the quick check and, if it failed, the deep scan. */
  function ChainAfter(hash: string -> string, rows: seq<Row>, state: Option<ChainState>): Option<ChainState> {
    if !QuickValid(hash, rows, state) && Broken(hash, rows, |rows|) == []
    then Some(ChainState(rows[|rows| - 1].hash, |rows|))
    else QuickState(hash, rows, state)
  }

  // ---- the deep scan reports exactly the damage

  /** Some row among the first `n` is not intact and has this log id. */
  predicate Damaged(hash: string -> string, rows: seq<Row>, n: nat, id: string)
    requires n <= |rows|
  {
    exists i | 0 <= i < n :: !RowIntact(hash, rows, i) && rows[i].logId == id
  }

  lemma DamagedLast(hash: string -> string, rows: seq<Row>, n: nat, id: string)
    requires 0 < n <= |rows|
    ensures Damaged(hash, rows, n, id) <==>
            Damaged(hash, rows, n - 1, id) || (!RowIntact(hash, rows, n - 1) && rows[n - 1].logId == id)
  {}

  lemma {:induction false} BrokenExact(hash: string -> string, rows: seq<Row>, n: nat, id: string)
    requires n <= |rows|
    ensures id in Broken(hash, rows, n) <==> Damaged(hash, rows, n, id)
  {
    if n > 0 {
      BrokenExact(hash, rows, n - 1, id);
      DamagedLast(hash, rows, n, id);
    }
  }

  /** They are reported in the order of the rows. */
  lemma {:induction false} BrokenInOrder(hash: string -> string, rows: seq<Row>, m: nat, n: nat)
    requires m <= n <= |rows|
    ensures Broken(hash, rows, m) <= Broken(hash, rows, n)
  {
    if m < n { BrokenInOrder(hash, rows, m, n - 1); }
  }

  lemma {:induction false} NothingBrokenIffIntact(hash: string -> string, rows: seq<Row>, n: nat)
    requires n <= |rows|
    ensures Broken(hash, rows, n) == [] <==> forall i | 0 <= i < n :: RowIntact(hash, rows, i)
  {
    if n > 0 { NothingBrokenIffIntact(hash, rows, n - 1); }
  }

  /** A hash function gives texts that are neither empty nor the genesis mark. */
  ghost predicate Proper(hash: string -> string) {
    forall s :: hash(s) != GENESIS && hash(s) != "" && '|' !in hash(s)
  }

  ghost predicate CollisionFree(hash: string -> string) {
    forall s, t | hash(s) == hash(t) :: s == t
  }

  /** After a deep scan that accepts a non-empty log, the quick check passes. */
  lemma DeepThenQuick(hash: string -> string, rows: seq<Row>)
    requires Proper(hash) && rows != [] && Broken(hash, rows, |rows|) == []
    ensures QuickValid(hash, rows, Some(ChainState(rows[|rows| - 1].hash, |rows|)))
  {
    NothingBrokenIffIntact(hash, rows, |rows|);
    assert RowIntact(hash, rows, |rows| - 1);
  }

  // ---- honest runs

  /** The rows after saving some entries one after the other. */
  function Honest(hash: string -> string, entries: seq<Row>): seq<Row> {
    if entries == [] then []
    else
      var before := Honest(hash, entries[..|entries| - 1]);
      Insert(before, Linked(hash, before, entries[|entries| - 1]))
  }

  predicate InTimeOrder(entries: seq<Row>) {
    forall i, j | 0 <= i < j < |entries| :: entries[i].timestamp <= entries[j].timestamp
  }

  /** Saved in time order, every row lands at the end and the chain is intact. */
  lemma {:induction false} HonestIntact(hash: string -> string, entries: seq<Row>)
    requires Proper(hash) && InTimeOrder(entries)
    ensures |Honest(hash, entries)| == |entries|
    ensures forall i | 0 <= i < |entries| :: Honest(hash, entries)[i].timestamp == entries[i].timestamp
    ensures Intact(hash, Honest(hash, entries))
  {
    if entries != [] {
      var n := |entries| - 1;
      var before := Honest(hash, entries[..n]);
      HonestIntact(hash, entries[..n]);
      var after := Honest(hash, entries);
      assert n > 0 ==> before[n - 1].timestamp == entries[n - 1].timestamp;
      assert after == before + [Linked(hash, before, entries[n])];
      forall i | 0 <= i < |after| ensures RowIntact(hash, after, i) {
        if i < n {
          assert RowIntact(hash, before, i);
        } else if n > 0 {
          assert RowIntact(hash, before, n - 1);
        }
      }
    }
  }

  /** After every run of saves in time order, both checks pass and the deep scan reports nothing. */
  lemma HonestRunPasses(hash: string -> string, entries: seq<Row>)
    requires Proper(hash) && InTimeOrder(entries)
    ensures var rows := Honest(hash, entries);
            Broken(hash, rows, |rows|) == [] &&
            QuickValid(hash, rows, if rows == [] then None else Some(ChainState(rows[|rows| - 1].hash, |rows|)))
  {
    var rows := Honest(hash, entries);
    HonestIntact(hash, entries);
    NothingBrokenIffIntact(hash, rows, |rows|);
    if rows != [] { DeepThenQuick(hash, rows); }
  }

  /** The fallback gives away what the cached state is for: a log cut off behind any row passes whatever the cache
      says, and the cache then says what the cut log says. TamperEvident needs the state from before. */
  lemma TruncatedLogPasses(hash: string -> string, entries: seq<Row>, k: nat, state: Option<ChainState>)
    requires Proper(hash) && InTimeOrder(entries) && 0 < k <= |entries|
    ensures |Honest(hash, entries)| == |entries|
    ensures var cut := Honest(hash, entries)[..k];
            ChainValid(hash, cut, state) && ChainAfter(hash, cut, state) == Some(ChainState(cut[k - 1].hash, k))
  {
    HonestIntact(hash, entries);
    HonestCut(hash, entries, k);
    HonestIntact(hash, entries[..k]);
    var cut := Honest(hash, entries[..k]);
    NothingBrokenIffIntact(hash, cut, k);
    assert RowIntact(hash, cut, k - 1);
  }

  lemma {:induction false} HonestCut(hash: string -> string, entries: seq<Row>, k: nat)
    requires Proper(hash) && InTimeOrder(entries) && k <= |entries|
    ensures k <= |Honest(hash, entries)| && Honest(hash, entries)[..k] == Honest(hash, entries[..k])
  {
    HonestIntact(hash, entries);
    if k == |entries| {
      assert entries[..k] == entries;
    } else {
      var n := |entries| - 1;
      HonestLast(hash, entries);
      HonestCut(hash, entries[..n], k);
      assert entries[..n][..k] == entries[..k];
    }
  }

  /** In time order each row is put behind the others. */
  lemma HonestLast(hash: string -> string, entries: seq<Row>)
    requires Proper(hash) && InTimeOrder(entries) && entries != []
    ensures var n := |entries| - 1;
            var before := Honest(hash, entries[..n]);
            |before| == n && Honest(hash, entries) == before + [Linked(hash, before, entries[n])]
  {
    var n := |entries| - 1;
    var before := Honest(hash, entries[..n]);
    HonestIntact(hash, entries[..n]);
    assert n > 0 ==> before[n - 1].timestamp == entries[n - 1].timestamp;
  }

  // ---- out of time order

  predicate Sorted(rows: seq<Row>) {
    forall i, j | 0 <= i < j < |rows| :: rows[i].timestamp <= rows[j].timestamp
  }

  lemma {:induction false} InsertPlace(rows: seq<Row>, r: Row) returns (k: nat)
    requires Sorted(rows)
    ensures k <= |rows| && Insert(rows, r) == rows[..k] + [r] + rows[k..]
    ensures k == |rows| <==> rows == [] || rows[|rows| - 1].timestamp <= r.timestamp
  {
    if rows == [] || rows[|rows| - 1].timestamp <= r.timestamp {
      k := |rows|;
    } else {
      var n := |rows| - 1;
      SortedFront(rows, n);
      k := InsertPlace(rows[..n], r);
      PlaceInFront(rows[..n], [rows[n]], r, k);
      assert rows[..n] + [rows[n]] == rows;
    }
  }

  lemma SortedFront(rows: seq<Row>, n: nat)
    requires Sorted(rows) && n <= |rows|
    ensures Sorted(rows[..n])
  {}

  lemma PlaceInFront(front: seq<Row>, back: seq<Row>, r: Row, k: nat)
    requires k <= |front|
    ensures front[..k] + [r] + front[k..] + back == (front + back)[..k] + [r] + (front + back)[k..]
  {}

  /** Saving onto an intact log keeps it intact exactly when the new row is not older than the last one. */
  lemma SaveIntactIff(hash: string -> string, rows: seq<Row>, r: Row)
    requires Proper(hash) && CollisionFree(hash) && Sorted(rows) && Intact(hash, rows)
    ensures Intact(hash, Insert(rows, Linked(hash, rows, r))) <==>
            rows == [] || rows[|rows| - 1].timestamp <= r.timestamp
  {
    var k := InsertPlace(rows, Linked(hash, rows, r));
    if k == |rows| {
      SaveInOrder(hash, rows, r);
    } else {
      SaveOutOfOrder(hash, rows, r, k);
    }
  }

  lemma SaveInOrder(hash: string -> string, rows: seq<Row>, r: Row)
    requires Proper(hash) && Intact(hash, rows)
    ensures Intact(hash, rows + [Linked(hash, rows, r)])
  {
    var after := rows + [Linked(hash, rows, r)];
    if rows != [] { assert RowIntact(hash, rows, |rows| - 1); }
    forall i | 0 <= i < |after| ensures RowIntact(hash, after, i) {
      if i < |rows| { assert RowIntact(hash, rows, i); }
    }
  }

  /** A row that lands before the last one links to a row that is not its predecessor. */
  lemma SaveOutOfOrder(hash: string -> string, rows: seq<Row>, r: Row, k: nat)
    requires Proper(hash) && CollisionFree(hash) && Intact(hash, rows) && k < |rows|
    ensures !Intact(hash, rows[..k] + [Linked(hash, rows, r)] + rows[k..])
  {
    var after := rows[..k] + [Linked(hash, rows, r)] + rows[k..];
    var n := |rows|;
    assert RowIntact(hash, rows, n - 1);
    assert after[k].previous == rows[n - 1].hash;
    if k > 0 {
      assert RowIntact(hash, rows, k - 1);
      assert ExpectedPrevious(after, k) == rows[k - 1].hash;
      DistinctHashes(hash, rows, k - 1, n - 1);
    }
    assert !RowIntact(hash, after, k);
  }

  /** In an intact log no two rows have the same hash. */
  lemma {:induction false} DistinctHashes(hash: string -> string, rows: seq<Row>, i: nat, j: nat)
    requires Proper(hash) && CollisionFree(hash) && Intact(hash, rows) && i < j < |rows|
    ensures rows[i].hash != rows[j].hash
    decreases i
  {
    assert RowIntact(hash, rows, i) && RowIntact(hash, rows, j);
    if rows[i].hash == rows[j].hash {
      LinkBarFree(hash, rows, i);
      LinkBarFree(hash, rows, j);
      SameHashSameLink(hash, rows[i], rows[j]);
      assert RowIntact(hash, rows, j - 1);
      if i > 0 {
        assert RowIntact(hash, rows, i - 1);
        DistinctHashes(hash, rows, i - 1, j - 1);
      }
      assert false;
    }
  }

  /** Equal hashes mean equal fields, if one of the rows holds no bar: the other cannot shift its fields by bars. */
  lemma SameHashSameFields(hash: string -> string, a: Row, b: Row)
    requires CollisionFree(hash) && BarFree(b) && '|' !in OrElse(b.previous, "")
    requires Calculate(hash, a) == Calculate(hash, b)
    ensures SameContent(a, b) && OrElse(a.previous, "") == OrElse(b.previous, "")
  {
    assert ['|'] == "|";
    forall i | 0 <= i < 8 ensures '|' !in HashedFields(b)[i] {}
    JoinOneWay(HashedFields(a), HashedFields(b), '|');
    ContentIsHashed(a, b);
  }

  /** Whatever the other fields hold, equal hashes mean equal links. */
  lemma SameHashSameLink(hash: string -> string, a: Row, b: Row)
    requires CollisionFree(hash) && '|' !in OrElse(a.previous, "") && '|' !in OrElse(b.previous, "")
    requires Calculate(hash, a) == Calculate(hash, b)
    ensures OrElse(a.previous, "") == OrElse(b.previous, "")
  {
    var fa, fb := HashedFields(a)[..7], HashedFields(b)[..7];
    JoinLast(fa, OrElse(a.previous, ""), "|");
    JoinLast(fb, OrElse(b.previous, ""), "|");
    assert HashedFields(a) == fa + [OrElse(a.previous, "")] && HashedFields(b) == fb + [OrElse(b.previous, "")];
    BehindLast(Join(fa, "|"), OrElse(a.previous, ""), Join(fb, "|"), OrElse(b.previous, ""), '|');
  }

  /** In an intact log the link of a row holds no bar. */
  lemma LinkBarFree(hash: string -> string, rows: seq<Row>, i: nat)
    requires Proper(hash) && Intact(hash, rows) && i < |rows|
    ensures '|' !in OrElse(rows[i].previous, "")
  {
    assert RowIntact(hash, rows, i);
    if i > 0 { assert RowIntact(hash, rows, i - 1); }
  }

  // ---- tampering

  /** Two logs that a deep scan accepts, of which only one need be free of bars, and that end in the same hash agree
      in length, in every hashed column, and in both hash columns. */
  lemma {:induction false} AcceptedLogsAgree(hash: string -> string, a: seq<Row>, b: seq<Row>)
    requires Proper(hash) && CollisionFree(hash)
    requires Intact(hash, a) && Intact(hash, b)
    requires AllBarFree(b)
    requires a != [] && b != [] && a[|a| - 1].hash == b[|b| - 1].hash
    ensures |a| == |b|
    ensures forall i | 0 <= i < |a| ::
              SameContent(a[i], b[i]) && a[i].previous == b[i].previous && a[i].hash == b[i].hash
  {
    var m, n := |a| - 1, |b| - 1;
    assert RowIntact(hash, a, m) && RowIntact(hash, b, n);
    LinkBarFree(hash, b, n);
    SameHashSameFields(hash, a[m], b[n]);
    if m > 0 { assert RowIntact(hash, a, m - 1); }
    if n > 0 { assert RowIntact(hash, b, n - 1); }
    if m > 0 && n > 0 {
      IntactPrefix(hash, a);
      IntactPrefix(hash, b);
      AcceptedLogsAgree(hash, a[..m], b[..n]);
      forall i | 0 <= i < |a|
        ensures SameContent(a[i], b[i]) && a[i].previous == b[i].previous && a[i].hash == b[i].hash
      {
        if i < m { assert a[..m][i] == a[i] && b[..n][i] == b[i]; }
      }
    }
  }

  lemma IntactPrefix(hash: string -> string, rows: seq<Row>)
    requires Intact(hash, rows) && rows != []
    ensures Intact(hash, rows[..|rows| - 1])
  {
    var front := rows[..|rows| - 1];
    forall i | 0 <= i < |front| ensures RowIntact(hash, front, i) {
      assert RowIntact(hash, rows, i);
    }
  }

  /** Tamper evidence: a log that the deep scan accepts, ending in the hash the honest run left in the cache,
      has the honest run's length and the honest run's hashed fields, row by row. */
  lemma TamperEvident(hash: string -> string, entries: seq<Row>, found: seq<Row>)
    requires Proper(hash) && CollisionFree(hash) && InTimeOrder(entries) && entries != []
    requires AllBarFree(entries)
    requires Broken(hash, found, |found|) == [] && found != []
    requires var honest := Honest(hash, entries);
             honest != [] && found[|found| - 1].hash == honest[|honest| - 1].hash
    ensures SameContents(found, entries)
  {
    HonestIntact(hash, entries);
    HonestFields(hash, entries);
    NothingBrokenIffIntact(hash, found, |found|);
    AgreesWithHonest(hash, Honest(hash, entries), entries, found);
  }

  /** With the cached state of an honest run, the quick check passes a non-empty log only if it has the honest length
      and the honest last row. */
  lemma QuickGuardsTheEnd(hash: string -> string, entries: seq<Row>, found: seq<Row>)
    requires Proper(hash) && CollisionFree(hash) && InTimeOrder(entries) && entries != [] && AllBarFree(entries)
    requires |Honest(hash, entries)| == |entries| && found != []
    requires var last := Honest(hash, entries)[|entries| - 1];
             QuickValid(hash, found, Some(ChainState(last.hash, |entries|)))
    ensures |found| == |entries| && SameContent(found[|found| - 1], entries[|entries| - 1])
  {
    var n := |entries| - 1;
    var honest := Honest(hash, entries);
    HonestIntact(hash, entries);
    HonestFields(hash, entries);
    LinkBarFree(hash, honest, n);
    BarFreeContent(honest[n], entries[n]);
    assert RowIntact(hash, honest, n) && RowIntact(hash, found, n);
    SameHashSameFields(hash, found[n], honest[n]);
  }

  /** But it passes when the whole log is gone, and whatever stands before the last two rows, and `verify_chain` then
      looks no further. The cached state stays. */
  lemma QuickSeesOnlyTheEnd(hash: string -> string, entries: seq<Row>, front: seq<Row>)
    requires Proper(hash) && InTimeOrder(entries) && |entries| == |front| + 2
    ensures |Honest(hash, entries)| == |entries|
    ensures var honest := Honest(hash, entries);
            var state := Some(ChainState(honest[|entries| - 1].hash, |entries|));
            QuickValid(hash, [], state) && QuickValid(hash, front + honest[|front|..], state) &&
            ChainValid(hash, front + honest[|front|..], state) &&
            ChainAfter(hash, front + honest[|front|..], state) == state
  {
    HonestIntact(hash, entries);
    var honest := Honest(hash, entries);
    var found, n := front + honest[|front|..], |entries| - 1;
    assert RowIntact(hash, honest, n);
    assert found[n] == honest[n] && found[n - 1] == honest[n - 1];
  }

  /** The first row of every intact log links to the genesis mark, any other to the hash before it. */
  lemma FirstLink(hash: string -> string, rows: seq<Row>, i: nat)
    requires Intact(hash, rows) && i < |rows|
    ensures rows[i].previous == if i == 0 then Some("GENESIS_BLOCK") else rows[i - 1].hash
  {
    assert RowIntact(hash, rows, i);
  }

  lemma AgreesWithHonest(hash: string -> string, honest: seq<Row>, entries: seq<Row>, found: seq<Row>)
    requires Proper(hash) && CollisionFree(hash) && Intact(hash, honest) && Intact(hash, found)
    requires SameContents(honest, entries)
    requires AllBarFree(entries)
    requires honest != [] && found != [] && found[|found| - 1].hash == honest[|honest| - 1].hash
    ensures SameContents(found, entries)
  {
    forall i | 0 <= i < |honest| ensures BarFree(honest[i]) {
      BarFreeContent(honest[i], entries[i]);
    }
    AcceptedLogsAgree(hash, found, honest);
    forall i | 0 <= i < |entries| ensures SameContent(found[i], entries[i]) {
      assert SameContent(found[i], honest[i]) && SameContent(honest[i], entries[i]);
    }
  }

  lemma BarFreeContent(a: Row, b: Row)
    requires SameContent(a, b) && BarFree(b)
    ensures BarFree(a)
  {
    ContentIsHashed(a, b);
    forall i | 0 <= i < 7 ensures '|' !in HashedFields(a)[i] {
      assert HashedFields(a)[i] == HashedFields(b)[i];
    }
  }

  lemma {:induction false} HonestFields(hash: string -> string, entries: seq<Row>)
    requires Proper(hash) && InTimeOrder(entries)
    ensures SameContents(Honest(hash, entries), entries)
  {
    HonestIntact(hash, entries);
    if entries != [] {
      var n := |entries| - 1;
      var before := Honest(hash, entries[..n]);
      HonestLast(hash, entries);
      HonestFields(hash, entries[..n]);
      var last := Linked(hash, before, entries[n]);
      SameContentsAppend(before, entries[..n], last, entries[n]);
      assert entries == entries[..n] + [entries[n]];
    }
  }

  lemma SameContentsAppend(a: seq<Row>, b: seq<Row>, x: Row, y: Row)
    requires SameContents(a, b) && SameContent(x, y)
    ensures SameContents(a + [x], b + [y])
  {}
}
