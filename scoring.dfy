/** The per-request steps of the hybrid recommender: the collaborative
    filtering (CF) score, the content-based (CBF) score, the realignment of
    CBF scores into CF column order, min-max normalisation, the blend, the
    masking of rated columns and the top-k selection. Each loop of the
    service is a method proved against the function that specifies it. */
module Scoring {
  import opened Wrappers

  /** A user's ratings as the items of a dictionary, in insertion order:
      (place identifier, rating). */
  type Ratings = seq<(int, real)>

  /** A ranking score: a finite real, or minus infinity for a masked column. */
  datatype Score = NegInf | Fin(value: real)

  /** The order of np.argpartition(-s): minus infinity below every real. */
  predicate ScoreLe(a: Score, b: Score) {
    a.NegInf? || (b.Fin? && a.value <= b.value)
  }

  // ---------------------------------------------------------------------
  // Identifier -> index maps
  // ---------------------------------------------------------------------

  /** {pid: i for i, pid in enumerate(order)}: every identifier of order
      maps to the LAST position that holds it. */
  function IndexMap(order: seq<int>): (m: map<int, nat>)
    ensures forall pid :: pid in m <==> pid in order
    ensures forall pid :: pid in m ==> m[pid] < |order| && order[m[pid]] == pid
    ensures forall pid, j :: pid in m && m[pid] < j < |order| ==> order[j] != pid
  {
    if |order| == 0 then map[]
    else
      var pre := order[..|order| - 1];
      var m := IndexMap(pre);
      IndexMapExtend(pre, order[|order| - 1], m);
      assert order == pre + [order[|order| - 1]];
      m[order[|order| - 1] := |order| - 1]
  }

  /** Writing the next position over the map of a prefix keeps the three
      facts IndexMap states. */
  lemma IndexMapExtend(pre: seq<int>, x: int, m: map<int, nat>)
    requires forall pid :: pid in m <==> pid in pre
    requires forall pid :: pid in m ==> m[pid] < |pre| && pre[m[pid]] == pid
    requires forall pid, j :: pid in m && m[pid] < j < |pre| ==> pre[j] != pid
    ensures var order, m' := pre + [x], m[x := |pre|];
      (forall pid :: pid in m' <==> pid in order)
      && (forall pid :: pid in m' ==> m'[pid] < |order| && order[m'[pid]] == pid)
      && (forall pid, j :: pid in m' && m'[pid] < j < |order| ==> order[j] != pid)
  {
    var order, m' := pre + [x], m[x := |pre|];
    forall pid ensures pid in m' <==> pid in order {
      if pid in order && pid != x {
        var i :| 0 <= i < |order| && order[i] == pid;
        assert pre[i] == pid;
      }
    }
    forall pid | pid in m' ensures m'[pid] < |order| && order[m'[pid]] == pid {
      if pid != x {
        assert order[m[pid]] == pre[m[pid]];
      }
    }
    forall pid, j | pid in m' && m'[pid] < j < |order| ensures order[j] != pid {
      if pid != x && j < |pre| {
        assert order[j] == pre[j];
      }
    }
  }

  /** Over identifiers without repetition the map is the exact inverse. */
  lemma IndexMapInverts(order: seq<int>)
    requires Distinct(order)
    ensures forall j :: 0 <= j < |order| ==> order[j] in IndexMap(order) && IndexMap(order)[order[j]] == j
  {
    var m := IndexMap(order);
    forall j | 0 <= j < |order|
      ensures order[j] in m && m[order[j]] == j
    {
      assert order[j] in order;
    }
  }

  /** The column bound every identifier -> column map of the service keeps. */
  predicate ColumnsBelow(m: map<int, nat>, n: nat) {
    forall pid :: pid in m ==> m[pid] < n
  }

  // ---------------------------------------------------------------------
  // CF rating vector and CF score
  // ---------------------------------------------------------------------

  /** The rating written last into column j: that of the last rated
      identifier that item_to_col sends to j, if any. */
  function LastRatingAt(ratings: Ratings, itemToCol: map<int, nat>, j: nat): Option<real> {
    if |ratings| == 0 then None
    else
      var (pid, r) := ratings[|ratings| - 1];
      if pid in itemToCol && itemToCol[pid] == j then Some(r)
      else LastRatingAt(ratings[..|ratings| - 1], itemToCol, j)
  }

  /** The CF rating vector v: the rating of the column's rated identifier,
      0 where no rated identifier has that column. */
  function CfRatingVector(ratings: Ratings, itemToCol: map<int, nat>, n: nat): (v: seq<real>)
    ensures |v| == n
    ensures forall j :: 0 <= j < n && (forall k :: !RatedInto(ratings, itemToCol, k, j)) ==> v[j] == 0.0
    ensures forall j, k :: 0 <= j < n && RatedInto(ratings, itemToCol, k, j) && LastInto(ratings, itemToCol, k, j)
              ==> v[j] == ratings[k].1
  {
    LastRatingAtAll(ratings, itemToCol, n);
    seq(n, j requires 0 <= j < n => match LastRatingAt(ratings, itemToCol, j) case Some(r) => r case None => 0.0)
  }

  /** Rating k is of an identifier that item_to_col sends to column j. */
  predicate RatedInto(ratings: Ratings, itemToCol: map<int, nat>, k: int, j: nat) {
    0 <= k < |ratings| && ratings[k].0 in itemToCol && itemToCol[ratings[k].0] == j
  }

  /** No rating after k goes to column j. */
  predicate LastInto(ratings: Ratings, itemToCol: map<int, nat>, k: int, j: nat) {
    forall k' :: k < k' < |ratings| ==> !RatedInto(ratings, itemToCol, k', j)
  }

  lemma LastRatingAtAll(ratings: Ratings, itemToCol: map<int, nat>, n: nat)
    ensures forall j :: 0 <= j < n && (forall k :: !RatedInto(ratings, itemToCol, k, j)) ==>
              LastRatingAt(ratings, itemToCol, j) == None
    ensures forall j, k :: 0 <= j < n && RatedInto(ratings, itemToCol, k, j) && LastInto(ratings, itemToCol, k, j)
              ==> LastRatingAt(ratings, itemToCol, j) == Some(ratings[k].1)
  {
    forall j | 0 <= j < n && (forall k :: !RatedInto(ratings, itemToCol, k, j))
      ensures LastRatingAt(ratings, itemToCol, j) == None
    {
      LastRatingAtMeaning(ratings, itemToCol, j);
      forall k | 0 <= k < |ratings| ensures !(ratings[k].0 in itemToCol && itemToCol[ratings[k].0] == j) {
        assert !RatedInto(ratings, itemToCol, k, j);
      }
    }
    forall j, k | 0 <= j < n && RatedInto(ratings, itemToCol, k, j) && LastInto(ratings, itemToCol, k, j)
      ensures LastRatingAt(ratings, itemToCol, j) == Some(ratings[k].1)
    {
      LastRatingAtMeaning(ratings, itemToCol, j);
      var k0 :| 0 <= k0 < |ratings| && ratings[k0].0 in itemToCol && itemToCol[ratings[k0].0] == j
                && ratings[k0].1 == LastRatingAt(ratings, itemToCol, j).value
                && forall k' :: k0 < k' < |ratings| ==> !(ratings[k'].0 in itemToCol && itemToCol[ratings[k'].0] == j);
      assert RatedInto(ratings, itemToCol, k0, j);
      assert k0 == k;
    }
  }

  /** LastRatingAt finds a rating exactly when some rated identifier maps to
      the column, and the one it finds is the last such rating. */
  lemma {:induction false} LastRatingAtMeaning(ratings: Ratings, itemToCol: map<int, nat>, j: nat)
    ensures LastRatingAt(ratings, itemToCol, j).None? <==>
            forall k :: 0 <= k < |ratings| ==> !(ratings[k].0 in itemToCol && itemToCol[ratings[k].0] == j)
    ensures LastRatingAt(ratings, itemToCol, j).Some? ==>
            exists k :: 0 <= k < |ratings| && ratings[k].0 in itemToCol && itemToCol[ratings[k].0] == j
                        && ratings[k].1 == LastRatingAt(ratings, itemToCol, j).value
                        && forall k' :: k < k' < |ratings| ==> !(ratings[k'].0 in itemToCol && itemToCol[ratings[k'].0] == j)
  {
    if |ratings| > 0 {
      var pre := ratings[..|ratings| - 1];
      LastRatingAtMeaning(pre, itemToCol, j);
      assert forall k :: 0 <= k < |pre| ==> pre[k] == ratings[k];
    }
  }

  /** When the rated identifiers are distinct and none shares a column with
      another, each rated column holds exactly its identifier's rating. */
  lemma RatingVectorEntry(ratings: Ratings, itemToCol: map<int, nat>, n: nat, k: nat)
    requires k < |ratings| && ratings[k].0 in itemToCol && itemToCol[ratings[k].0] < n
    requires forall k' :: 0 <= k' < |ratings| && k' != k && ratings[k'].0 in itemToCol ==>
               itemToCol[ratings[k'].0] != itemToCol[ratings[k].0]
    ensures CfRatingVector(ratings, itemToCol, n)[itemToCol[ratings[k].0]] == ratings[k].1
  {
    var j := itemToCol[ratings[k].0];
    LastRatingAtMeaning(ratings, itemToCol, j);
  }

  /** v = zeros(n); v[item_to_col[pid]] = r for every rated pid with a column. */
  method BuildRatingVector(ratings: Ratings, itemToCol: map<int, nat>, n: nat) returns (v: seq<real>)
    requires ColumnsBelow(itemToCol, n)
    ensures v == CfRatingVector(ratings, itemToCol, n)
  {
    var a := new real[n](_ => 0.0);
    var i := 0;
    while i < |ratings|
      invariant 0 <= i <= |ratings|
      invariant forall j :: 0 <= j < n ==> a[j] == CfRatingVector(ratings[..i], itemToCol, n)[j]
    {
      var (pid, r) := ratings[i];
      if pid in itemToCol {
        a[itemToCol[pid]] := r;
      }
      assert ratings[..i + 1][..i] == ratings[..i];
      i := i + 1;
    }
    assert ratings[..i] == ratings;
    v := a[..];
  }

  function Dot(row: seq<real>, v: seq<real>): real
    requires |row| == |v|
  {
    if |row| == 0 then 0.0
    else Dot(row[..|row| - 1], v[..|v| - 1]) + row[|row| - 1] * v[|v| - 1]
  }

  /** item_sim.dot(v): every row of the similarity matrix against v. */
  function MatVec(m: seq<seq<real>>, v: seq<real>): (r: seq<real>)
    requires forall a :: 0 <= a < |m| ==> |m[a]| == |v|
    ensures |r| == |m|
  {
    seq(|m|, a requires 0 <= a < |m| => Dot(m[a], v))
  }

  /** A row against the zero vector gives 0. */
  lemma {:induction false} DotZeroVector(row: seq<real>, v: seq<real>)
    requires |row| == |v| && forall i :: 0 <= i < |v| ==> v[i] == 0.0
    ensures Dot(row, v) == 0.0
  {
    if |row| > 0 {
      DotZeroVector(row[..|row| - 1], v[..|v| - 1]);
    }
  }

  /** Any matrix times the zero vector is the zero vector. */
  lemma MatVecZero(m: seq<seq<real>>, v: seq<real>)
    requires forall a :: 0 <= a < |m| ==> |m[a]| == |v|
    requires forall i :: 0 <= i < |v| ==> v[i] == 0.0
    ensures forall a :: 0 <= a < |m| ==> MatVec(m, v)[a] == 0.0
  {
    forall a | 0 <= a < |m| ensures MatVec(m, v)[a] == 0.0 {
      DotZeroVector(m[a], v);
    }
  }

  function Identity(n: nat): (m: seq<seq<real>>)
    ensures |m| == n && forall a :: 0 <= a < n ==> |m[a]| == n
  {
    seq(n, a => seq(n, b => if a == b then 1.0 else 0.0))
  }

  lemma {:induction false} DotZero(row: seq<real>, v: seq<real>)
    requires |row| == |v| && forall b :: 0 <= b < |row| ==> row[b] == 0.0
    ensures Dot(row, v) == 0.0
  {
    if |row| > 0 {
      DotZero(row[..|row| - 1], v[..|v| - 1]);
    }
  }

  lemma {:induction false} DotUnit(row: seq<real>, v: seq<real>, a: nat)
    requires |row| == |v| && a < |row|
    requires forall b :: 0 <= b < |row| ==> row[b] == if b == a then 1.0 else 0.0
    ensures Dot(row, v) == v[a]
  {
    var L := |row| - 1;
    if a == L {
      DotZero(row[..L], v[..L]);
    } else {
      DotUnit(row[..L], v[..L], a);
    }
  }

  /** With the identity as similarity, the CF score is the rating vector. */
  lemma MatVecIdentity(v: seq<real>)
    ensures MatVec(Identity(|v|), v) == v
  {
    var m := Identity(|v|);
    forall a | 0 <= a < |v| ensures MatVec(m, v)[a] == v[a] {
      DotUnit(m[a], v, a);
    }
  }

  /** Ratings {1: 5.0} over the columns [1, 2, 3] with the identity as
      similarity score [5, 0, 0]. */
  lemma IdentityScenario(ratings: Ratings, itemIds: seq<int>)
    requires ratings == [(1, 5.0)] && itemIds == [1, 2, 3]
    ensures MatVec(Identity(3), CfRatingVector(ratings, IndexMap(itemIds), 3)) == [5.0, 0.0, 0.0]
  {
    var m := IndexMap(itemIds);
    IndexMapInverts(itemIds);
    var v := ScenarioVector(ratings, m);
    MatVecIdentity(v);
  }

  lemma ScenarioVector(ratings: Ratings, m: map<int, nat>) returns (v: seq<real>)
    requires ratings == [(1, 5.0)] && 1 in m && m[1] == 0
    ensures v == CfRatingVector(ratings, m, 3) && v == [5.0, 0.0, 0.0]
  {
    v := CfRatingVector(ratings, m, 3);
    assert ratings[0] == (1, 5.0) && ratings[..0] == [];
    assert LastRatingAt(ratings, m, 0) == Some(5.0);
    assert LastRatingAt(ratings, m, 1) == None;
    assert LastRatingAt(ratings, m, 2) == None;
  }

  // ---------------------------------------------------------------------
  // CBF score
  // ---------------------------------------------------------------------

  /** Shape of the content similarity rows: row i holds the cosine
      similarity of CBF item i to every CBF item. */
  predicate SimRows(sim: seq<seq<real>>, m: nat) {
    |sim| == m && forall i :: 0 <= i < |sim| ==> |sim[i]| == m
  }

  /** Entry c of s_cbf: the sum, over the rated identifiers that have a CBF
      row, of rating times the similarity of that row to item c. */
  function CbfAt(ratings: Ratings, pidToRow: map<int, nat>, sim: seq<seq<real>>, c: nat): real
    requires ColumnsBelow(pidToRow, |sim|)
    requires forall i :: 0 <= i < |sim| ==> c < |sim[i]|
  {
    if |ratings| == 0 then 0.0
    else
      var (pid, r) := ratings[|ratings| - 1];
      CbfAt(ratings[..|ratings| - 1], pidToRow, sim, c)
      + (if pid in pidToRow then sim[pidToRow[pid]][c] * r else 0.0)
  }

  /** s_cbf: one rating of an identifier with a CBF row adds that row
      scaled by the rating, identifiers without a row add nothing, and
      batches of ratings add up (CbfAtAppend). */
  function CbfScores(ratings: Ratings, pidToRow: map<int, nat>, sim: seq<seq<real>>): (s: seq<real>)
    requires SimRows(sim, |sim|) && ColumnsBelow(pidToRow, |sim|)
    ensures |s| == |sim|
    ensures (forall k :: 0 <= k < |ratings| ==> ratings[k].0 !in pidToRow) ==> forall c :: 0 <= c < |s| ==> s[c] == 0.0
    ensures |ratings| == 1 && ratings[0].0 in pidToRow ==>
              var row := pidToRow[ratings[0].0];
              row < |sim| && forall c :: 0 <= c < |s| ==> s[c] == sim[row][c] * ratings[0].1
  {
    CbfAtFacts(ratings, pidToRow, sim);
    seq(|sim|, c requires 0 <= c < |sim| => CbfAt(ratings, pidToRow, sim, c))
  }

  lemma CbfAtFacts(ratings: Ratings, pidToRow: map<int, nat>, sim: seq<seq<real>>)
    requires SimRows(sim, |sim|) && ColumnsBelow(pidToRow, |sim|)
    ensures (forall k :: 0 <= k < |ratings| ==> ratings[k].0 !in pidToRow) ==>
              forall c :: 0 <= c < |sim| ==> CbfAt(ratings, pidToRow, sim, c) == 0.0
    ensures |ratings| == 1 && ratings[0].0 in pidToRow ==>
              var row := pidToRow[ratings[0].0];
              row < |sim| && forall c :: 0 <= c < |sim| ==> CbfAt(ratings, pidToRow, sim, c) == sim[row][c] * ratings[0].1
  {
    if forall k :: 0 <= k < |ratings| ==> ratings[k].0 !in pidToRow {
      forall c | 0 <= c < |sim| ensures CbfAt(ratings, pidToRow, sim, c) == 0.0 {
        CbfAtUnresolved(ratings, pidToRow, sim, c);
      }
    }
    if |ratings| == 1 && ratings[0].0 in pidToRow {
      CbfAtSingle(ratings, pidToRow, sim);
    }
  }

  lemma CbfAtSingle(ratings: Ratings, pidToRow: map<int, nat>, sim: seq<seq<real>>)
    requires SimRows(sim, |sim|) && ColumnsBelow(pidToRow, |sim|)
    requires |ratings| == 1 && ratings[0].0 in pidToRow
    ensures var row := pidToRow[ratings[0].0];
      row < |sim| && forall c :: 0 <= c < |sim| ==> CbfAt(ratings, pidToRow, sim, c) == sim[row][c] * ratings[0].1
  {
    var (pid, r) := ratings[0];
    var row := pidToRow[pid];
    assert row < |sim|;
    assert ratings[..0] == [];
    forall c | 0 <= c < |sim| ensures CbfAt(ratings, pidToRow, sim, c) == sim[row][c] * r {
      assert CbfAt(ratings[..0], pidToRow, sim, c) == 0.0;
    }
  }

  /** The CBF score does not depend on how the ratings are split: the dictionary
      order only changes the order of the additions. */
  lemma {:induction false} CbfAtAppend(a: Ratings, b: Ratings, pidToRow: map<int, nat>, sim: seq<seq<real>>, c: nat)
    requires ColumnsBelow(pidToRow, |sim|)
    requires forall i :: 0 <= i < |sim| ==> c < |sim[i]|
    ensures CbfAt(a + b, pidToRow, sim, c) == CbfAt(a, pidToRow, sim, c) + CbfAt(b, pidToRow, sim, c)
  {
    if |b| == 0 {
      assert a + b == a;
    } else {
      var L := |b| - 1;
      var ab := a + b;
      assert ab[..|ab| - 1] == a + b[..L];
      assert ab[|ab| - 1] == b[L];
      var (pid, r) := b[L];
      var term := if pid in pidToRow then sim[pidToRow[pid]][c] * r else 0.0;
      assert CbfAt(b, pidToRow, sim, c) == CbfAt(b[..L], pidToRow, sim, c) + term;
      assert CbfAt(ab, pidToRow, sim, c) == CbfAt(a + b[..L], pidToRow, sim, c) + term;
      CbfAtAppend(a, b[..L], pidToRow, sim, c);
    }
  }

  /** Rated identifiers without a CBF row contribute nothing. */
  lemma {:induction false} CbfAtUnresolved(ratings: Ratings, pidToRow: map<int, nat>, sim: seq<seq<real>>, c: nat)
    requires ColumnsBelow(pidToRow, |sim|)
    requires forall i :: 0 <= i < |sim| ==> c < |sim[i]|
    requires forall k :: 0 <= k < |ratings| ==> ratings[k].0 !in pidToRow
    ensures CbfAt(ratings, pidToRow, sim, c) == 0.0
  {
    if |ratings| > 0 {
      CbfAtUnresolved(ratings[..|ratings| - 1], pidToRow, sim, c);
    }
  }

  /** s_cbf = zeros(m); s_cbf += sim(row) * r for every rated pid with a row. */
  method AccumulateCbf(ratings: Ratings, pidToRow: map<int, nat>, sim: seq<seq<real>>) returns (s: seq<real>)
    requires SimRows(sim, |sim|) && ColumnsBelow(pidToRow, |sim|)
    ensures s == CbfScores(ratings, pidToRow, sim)
  {
    var m := |sim|;
    var a := new real[m](_ => 0.0);
    var i := 0;
    while i < |ratings|
      invariant 0 <= i <= |ratings|
      invariant forall c :: 0 <= c < m ==> a[c] == CbfAt(ratings[..i], pidToRow, sim, c)
    {
      var (pid, r) := ratings[i];
      assert ratings[..i + 1][..i] == ratings[..i];
      if pid in pidToRow {
        var row := sim[pidToRow[pid]];
        var c := 0;
        while c < m
          invariant 0 <= c <= m
          invariant forall c' :: 0 <= c' < c ==> a[c'] == CbfAt(ratings[..i + 1], pidToRow, sim, c')
          invariant forall c' :: c <= c' < m ==> a[c'] == CbfAt(ratings[..i], pidToRow, sim, c')
        {
          a[c] := a[c] + row[c] * r;
          c := c + 1;
        }
      }
      i := i + 1;
    }
    assert ratings[..i] == ratings;
    s := a[..];
  }

  // ---------------------------------------------------------------------
  // Realigning CBF scores into CF column order
  // ---------------------------------------------------------------------

  /** s_cbf_aligned: for each CF column, the CBF score of the same
      identifier, 0 when the identifier has no CBF row. */
  function AlignToCf(itemIds: seq<int>, pidToRow: map<int, nat>, sCbf: seq<real>): (r: seq<real>)
    requires ColumnsBelow(pidToRow, |sCbf|)
    ensures |r| == |itemIds|
  {
    seq(|itemIds|, idx requires 0 <= idx < |itemIds| =>
      AlignedValue(itemIds[idx], pidToRow, sCbf))
  }

  function AlignedValue(pid: int, pidToRow: map<int, nat>, sCbf: seq<real>): real
    requires ColumnsBelow(pidToRow, |sCbf|)
  {
    if pid in pidToRow then sCbf[pidToRow[pid]] else 0.0
  }

  /** Stated against the CBF identifier order: CF column idx receives the
      CBF score of the last CBF row carrying the same identifier, or 0 when
      no CBF row carries it. */
  lemma AlignedEntry(itemIds: seq<int>, placeIdOrder: seq<int>, sCbf: seq<real>, idx: nat)
    requires |sCbf| == |placeIdOrder| && idx < |itemIds|
    ensures itemIds[idx] !in placeIdOrder ==> AlignToCf(itemIds, IndexMap(placeIdOrder), sCbf)[idx] == 0.0
    ensures itemIds[idx] in placeIdOrder ==>
      exists row :: 0 <= row < |placeIdOrder| && placeIdOrder[row] == itemIds[idx]
        && (forall row' :: row < row' < |placeIdOrder| ==> placeIdOrder[row'] != itemIds[idx])
        && AlignToCf(itemIds, IndexMap(placeIdOrder), sCbf)[idx] == sCbf[row]
  {
    var m := IndexMap(placeIdOrder);
    if itemIds[idx] in placeIdOrder {
      var row := m[itemIds[idx]];
      assert placeIdOrder[row] == itemIds[idx];
    }
  }

  method AlignCbfToCf(itemIds: seq<int>, pidToRow: map<int, nat>, sCbf: seq<real>) returns (aligned: seq<real>)
    requires ColumnsBelow(pidToRow, |sCbf|)
    ensures aligned == AlignToCf(itemIds, pidToRow, sCbf)
  {
    var a := new real[|itemIds|](_ => 0.0);
    var idx := 0;
    while idx < |itemIds|
      invariant 0 <= idx <= |itemIds|
      invariant forall j :: 0 <= j < idx ==> a[j] == AlignToCf(itemIds, pidToRow, sCbf)[j]
      invariant forall j :: idx <= j < |itemIds| ==> a[j] == 0.0
    {
      var pid := itemIds[idx];
      if pid in pidToRow {
        a[idx] := sCbf[pidToRow[pid]];
      }
      idx := idx + 1;
    }
    aligned := a[..];
  }

  // ---------------------------------------------------------------------
  // Columns of rated identifiers
  // ---------------------------------------------------------------------

  /** seen_cols: the CF columns of the rated identifiers that have one. */
  function SeenCols(ratings: Ratings, itemToCol: map<int, nat>): (seen: set<nat>)
    ensures forall k :: 0 <= k < |ratings| && ratings[k].0 in itemToCol ==> itemToCol[ratings[k].0] in seen
    ensures forall j :: j in seen ==>
              exists k :: 0 <= k < |ratings| && ratings[k].0 in itemToCol && itemToCol[ratings[k].0] == j
  {
    set k | 0 <= k < |ratings| && ratings[k].0 in itemToCol :: itemToCol[ratings[k].0]
  }

  /** Every masked column is a column of the score vector. */
  lemma SeenColsBelow(ratings: Ratings, itemToCol: map<int, nat>, n: nat)
    requires ColumnsBelow(itemToCol, n)
    ensures forall j :: j in SeenCols(ratings, itemToCol) ==> j < n
  {
    forall j | j in SeenCols(ratings, itemToCol) ensures j < n {
      var k :| 0 <= k < |ratings| && ratings[k].0 in itemToCol && itemToCol[ratings[k].0] == j;
      var pid := ratings[k].0;
      assert itemToCol[pid] < n;
    }
  }

  /** The masked columns are exactly those the rating vector wrote to. */
  lemma SeenIffRated(ratings: Ratings, itemToCol: map<int, nat>, j: nat)
    ensures j in SeenCols(ratings, itemToCol) <==> LastRatingAt(ratings, itemToCol, j).Some?
  {
    LastRatingAtMeaning(ratings, itemToCol, j);
  }

  method CollectSeenCols(ratings: Ratings, itemToCol: map<int, nat>) returns (seen: set<nat>)
    ensures seen == SeenCols(ratings, itemToCol)
  {
    seen := {};
    var i := 0;
    while i < |ratings|
      invariant 0 <= i <= |ratings|
      invariant seen == SeenCols(ratings[..i], itemToCol)
    {
      var pid := ratings[i].0;
      if pid in itemToCol {
        seen := seen + {itemToCol[pid]};
      }
      assert ratings[..i + 1][..i] == ratings[..i];
      assert forall k :: 0 <= k < i ==> ratings[..i + 1][k] == ratings[..i][k];
      i := i + 1;
    }
    assert ratings[..i] == ratings;
  }

  // ---------------------------------------------------------------------
  // Min-max normalisation and the blend
  // ---------------------------------------------------------------------

  /** The epsilon of norm01: the degenerate-range threshold and the
      denominator guard. */
  const Epsilon: real := 0.000000001

  function SeqMin(x: seq<real>): (m: real)
    requires |x| > 0
    ensures forall i :: 0 <= i < |x| ==> m <= x[i]
    ensures exists i :: 0 <= i < |x| && x[i] == m
  {
    if |x| == 1 then x[0]
    else
      var p := SeqMin(x[..|x| - 1]);
      assert forall i :: 0 <= i < |x| - 1 ==> x[..|x| - 1][i] == x[i];
      if x[|x| - 1] < p then x[|x| - 1] else p
  }

  function SeqMax(x: seq<real>): (m: real)
    requires |x| > 0
    ensures forall i :: 0 <= i < |x| ==> x[i] <= m
    ensures exists i :: 0 <= i < |x| && x[i] == m
  {
    if |x| == 1 then x[0]
    else
      var p := SeqMax(x[..|x| - 1]);
      assert forall i :: 0 <= i < |x| - 1 ==> x[..|x| - 1][i] == x[i];
      if x[|x| - 1] > p then x[|x| - 1] else p
  }

  /** a / d is monotone in a for a positive d, strictly so where a is. */
  lemma DivMonotone(a: real, b: real, d: real)
    requires d > 0.0 && a <= b
    ensures a / d <= b / d
    ensures a < b ==> a / d < b / d
  {
    assert b / d - a / d == (b - a) / d;
  }

  /** A part no larger than d lies in [0, 1) of d + Epsilon. */
  lemma DivBelowOne(a: real, d: real)
    requires 0.0 <= a <= d
    ensures 0.0 <= a / (d + Epsilon) < 1.0
  {
    DivMonotone(0.0, a, d + Epsilon);
    DivMonotone(a, d + Epsilon, d + Epsilon);
  }

  /** norm01: zeros when the range is below Epsilon, otherwise
      (x - min) / (max - min + Epsilon). Every result lies in [0, 1), the
      minimum maps to 0 and the order of the scores is kept. */
  function Norm01(x: seq<real>): (r: seq<real>)
    requires |x| > 0
    ensures |r| == |x|
    ensures forall i :: 0 <= i < |x| ==> 0.0 <= r[i] < 1.0
    ensures SeqMax(x) - SeqMin(x) < Epsilon ==> forall i :: 0 <= i < |x| ==> r[i] == 0.0
    ensures forall i :: 0 <= i < |x| && x[i] == SeqMin(x) ==> r[i] == 0.0
    ensures forall i, j :: 0 <= i < |x| && 0 <= j < |x| && x[i] <= x[j] ==> r[i] <= r[j]
    ensures SeqMax(x) - SeqMin(x) >= Epsilon ==>
      forall i, j :: 0 <= i < |x| && 0 <= j < |x| && x[i] < x[j] ==> r[i] < r[j]
  {
    var lo, hi := SeqMin(x), SeqMax(x);
    if hi - lo < Epsilon then seq(|x|, _ => 0.0)
    else
      var r := seq(|x|, i requires 0 <= i < |x| => (x[i] - lo) / (hi - lo + Epsilon));
      Norm01Facts(x, lo, hi, r);
      r
  }

  lemma Norm01Facts(x: seq<real>, lo: real, hi: real, r: seq<real>)
    requires |x| > 0 && |r| == |x| && hi - lo >= Epsilon
    requires forall i :: 0 <= i < |x| ==> lo <= x[i] <= hi
    requires forall i :: 0 <= i < |x| ==> r[i] == (x[i] - lo) / (hi - lo + Epsilon)
    ensures forall i :: 0 <= i < |x| ==> 0.0 <= r[i] < 1.0
    ensures forall i :: 0 <= i < |x| && x[i] == lo ==> r[i] == 0.0
    ensures forall i, j :: 0 <= i < |x| && 0 <= j < |x| && x[i] <= x[j] ==> r[i] <= r[j]
    ensures forall i, j :: 0 <= i < |x| && 0 <= j < |x| && x[i] < x[j] ==> r[i] < r[j]
  {
    forall i | 0 <= i < |x| ensures 0.0 <= r[i] < 1.0 {
      DivBelowOne(x[i] - lo, hi - lo);
    }
    forall i, j | 0 <= i < |x| && 0 <= j < |x| && x[i] <= x[j]
      ensures r[i] <= r[j] && (x[i] < x[j] ==> r[i] < r[j])
    {
      DivMonotone(x[i] - lo, x[j] - lo, hi - lo + Epsilon);
    }
  }

  /** s = alpha * s_cf_n + (1 - alpha) * s_cbf_n. For alpha in [0, 1] each
      blended score lies between the two scores it mixes, hence in [0, 1]
      for normalised inputs; alpha = 1 gives the CF vector and alpha = 0
      the CBF vector. */
  function Blend(alpha: real, a: seq<real>, b: seq<real>): (s: seq<real>)
    requires |a| == |b|
    ensures |s| == |a|
    ensures 0.0 <= alpha <= 1.0 ==> forall i :: 0 <= i < |s| ==>
      (a[i] <= b[i] ==> a[i] <= s[i] <= b[i]) && (b[i] <= a[i] ==> b[i] <= s[i] <= a[i])
    ensures 0.0 <= alpha <= 1.0 && (forall i :: 0 <= i < |a| ==> 0.0 <= a[i] <= 1.0 && 0.0 <= b[i] <= 1.0) ==>
      forall i :: 0 <= i < |s| ==> 0.0 <= s[i] <= 1.0
    ensures alpha == 1.0 ==> s == a
    ensures alpha == 0.0 ==> s == b
  {
    var s := seq(|a|, i requires 0 <= i < |a| => alpha * a[i] + (1.0 - alpha) * b[i]);
    if 0.0 <= alpha <= 1.0 then
      MixBetween(alpha, a, b, s);
      s
    else s
  }

  lemma MixBetween(alpha: real, a: seq<real>, b: seq<real>, s: seq<real>)
    requires |a| == |b| == |s| && 0.0 <= alpha <= 1.0
    requires forall i :: 0 <= i < |s| ==> s[i] == alpha * a[i] + (1.0 - alpha) * b[i]
    ensures forall i :: 0 <= i < |s| ==>
      (a[i] <= b[i] ==> a[i] <= s[i] <= b[i]) && (b[i] <= a[i] ==> b[i] <= s[i] <= a[i])
  {
    forall i | 0 <= i < |s|
      ensures (a[i] <= b[i] ==> a[i] <= s[i] <= b[i]) && (b[i] <= a[i] ==> b[i] <= s[i] <= a[i])
    {
      assert s[i] == a[i] + (1.0 - alpha) * (b[i] - a[i]);
      assert s[i] == b[i] + alpha * (a[i] - b[i]);
      MulNonNeg(1.0 - alpha, b[i] - a[i]);
      MulNonNeg(alpha, a[i] - b[i]);
    }
  }

  lemma MulNonNeg(c: real, d: real)
    requires 0.0 <= c
    ensures d >= 0.0 ==> c * d >= 0.0
    ensures d <= 0.0 ==> c * d <= 0.0
  {
  }

  // ---------------------------------------------------------------------
  // Masking rated columns
  // ---------------------------------------------------------------------

  /** s[seen_cols] = -inf. */
  function Mask(s: seq<real>, seen: set<nat>): (r: seq<Score>)
    ensures |r| == |s|
    ensures forall j :: 0 <= j < |r| ==> (r[j].NegInf? <==> j in seen)
    ensures forall j :: 0 <= j < |r| && r[j].Fin? ==> r[j].value == s[j]
  {
    seq(|s|, j requires 0 <= j < |s| => if j in seen then NegInf else Fin(s[j]))
  }

  /** The columns that keep a finite score. */
  function FinIndices(s: seq<Score>): set<nat> {
    set j | 0 <= j < |s| && s[j].Fin?
  }

  /** Masking leaves finite exactly the columns that were not rated. */
  lemma MaskFinite(s: seq<real>, seen: set<nat>)
    ensures FinIndices(Mask(s, seen)) == set j | 0 <= j < |s| && j !in seen
  {
  }

  /** s as a fresh array of finite scores, then masked in place: the
      result is Mask(blended, seen). */
  method MaskScores(blended: seq<real>, seen: set<nat>) returns (s: seq<Score>)
    requires forall j :: j in seen ==> j < |blended|
    ensures s == Mask(blended, seen)
  {
    var a := new Score[|blended|](j requires 0 <= j < |blended| => Fin(blended[j]));
    assert forall j :: 0 <= j < a.Length ==> a[j] == Fin(blended[j]);
    MaskInPlace(a, seen);
    s := a[..];
    assert forall j :: 0 <= j < |s| ==> s[j] == if j in seen then NegInf else Fin(blended[j]);
  }

  /** for j in seen_cols: s[j] = -inf, over an array of scores: the rated
      columns become -inf and every other column keeps its score. */
  method MaskInPlace(a: array<Score>, seen: set<nat>)
    requires forall j :: j in seen ==> j < a.Length
    modifies a
    ensures forall j :: 0 <= j < a.Length ==> a[j] == if j in seen then NegInf else old(a[j])
  {
    var todo := seen;
    while todo != {}
      invariant todo <= seen
      invariant forall j :: 0 <= j < a.Length ==>
        a[j] == if j in seen - todo then NegInf else old(a[j])
      decreases |todo|
    {
      var j :| j in todo;
      a[j] := NegInf;
      todo := todo - {j};
    }
  }

  // ---------------------------------------------------------------------
  // Top-k selection
  // ---------------------------------------------------------------------

  function Min(a: int, b: int): int {
    if a <= b then a else b
  }

  /** How many columns `np.argpartition(-s, kth=k - 1)[:k]` yields once k is
      clamped to min(k, n - 1) (to 1 when n == 1); None when the clamped k
      leaves kth below -n, where numpy raises. A negative k counts from the
      end: [:k] keeps all but the last -k columns. */
  function TopCount(k: int, n: nat): (c: Option<nat>)
    requires n >= 1
    ensures c.Some? ==> c.value <= n
    ensures n == 1 ==> c == Some(1)
    ensures n > 1 && k >= 0 ==> c == Some(Min(k, n - 1))
    ensures n > 1 && 1 - n <= k < 0 ==> c == Some(n + k)
    ensures n > 1 && k < 1 - n ==> c.None?
  {
    var kk := if n > 1 then Min(k, n - 1) else 1;
    if kk >= 0 then Some(kk)
    else if kk - 1 >= -(n as int) then Some(n + kk)
    else None
  }

  /** A non-negative request is met as far as the universe allows, never
      reaching every column when there are several, and a larger request
      never yields fewer columns. */
  lemma TopCountMonotone(k1: int, k2: int, n: nat)
    requires n >= 1 && 0 <= k1 <= k2
    ensures TopCount(k1, n).Some? && TopCount(k2, n).Some?
    ensures TopCount(k1, n).value <= TopCount(k2, n).value
    ensures n > 1 ==> TopCount(k2, n).value < n
  {
  }

  /** Below zero the count is not monotone: k = -1 yields n - 1 columns
      while k = 0 yields none. */
  lemma TopCountNegativeK(n: nat)
    requires n >= 2
    ensures TopCount(-1, n) == Some(n - 1) && TopCount(0, n) == Some(0)
  {
  }

  /** cols are c distinct columns of s in descending score order, and no
      column left out scores above a chosen one: the result of
      argpartition followed by argsort of the chosen scores. */
  predicate IsTopK(s: seq<Score>, c: nat, cols: seq<nat>) {
    |cols| == c
    && (forall p :: 0 <= p < |cols| ==> cols[p] < |s|)
    && Distinct(cols)
    && (forall p, q :: 0 <= p < q < |cols| ==> ScoreLe(s[cols[q]], s[cols[p]]))
    && (forall p, j :: 0 <= p < |cols| && 0 <= j < |s| && j !in cols ==> ScoreLe(s[j], s[cols[p]]))
  }

  /** rest without its element at position b. */
  function RemoveAt(rest: seq<nat>, b: nat): (r: seq<nat>)
    requires b < |rest|
    ensures |r| == |rest| - 1
  {
    rest[..b] + rest[b + 1..]
  }

  lemma RemoveAtMembers(rest: seq<nat>, b: nat)
    requires b < |rest| && Distinct(rest)
    ensures Distinct(RemoveAt(rest, b))
    ensures forall x :: x in RemoveAt(rest, b) <==> x in rest && x != rest[b]
  {
    var r := RemoveAt(rest, b);
    assert forall i :: 0 <= i < b ==> r[i] == rest[i];
    assert forall i :: b <= i < |r| ==> r[i] == rest[i + 1];
    forall x | x in rest && x != rest[b] ensures x in r {
      var i :| 0 <= i < |rest| && rest[i] == x;
      if i < b { assert r[i] == x; } else { assert r[i - 1] == x; }
    }
  }

  /** The position in rest of a column with the highest score. */
  method BestPosition(s: seq<Score>, rest: seq<nat>) returns (b: nat)
    requires |rest| > 0 && forall q :: 0 <= q < |rest| ==> rest[q] < |s|
    ensures b < |rest|
    ensures forall q :: 0 <= q < |rest| ==> ScoreLe(s[rest[q]], s[rest[b]])
  {
    b := 0;
    var q := 1;
    while q < |rest|
      invariant 1 <= q <= |rest| && b < q
      invariant forall q' :: 0 <= q' < q ==> ScoreLe(s[rest[q']], s[rest[b]])
    {
      if !ScoreLe(s[rest[q]], s[rest[b]]) {
        b := q;
      }
      q := q + 1;
    }
  }

  /** Selection of the c best columns, each round taking a best column of
      those not chosen yet. */
  method SelectTopK(s: seq<Score>, c: nat) returns (cols: seq<nat>)
    requires c <= |s|
    ensures IsTopK(s, c, cols)
  {
    cols := [];
    var rest: seq<nat> := seq(|s|, j requires 0 <= j < |s| => j);
    forall j | 0 <= j < |s| ensures j in rest {
      assert rest[j] == j;
    }
    while |cols| < c
      invariant |cols| <= c && |cols| + |rest| == |s|
      invariant Distinct(cols) && Distinct(rest)
      invariant forall p :: 0 <= p < |cols| ==> cols[p] < |s|
      invariant forall q :: 0 <= q < |rest| ==> rest[q] < |s|
      invariant forall j :: 0 <= j < |s| ==> (j in cols <==> j !in rest)
      invariant forall p, q :: 0 <= p < q < |cols| ==> ScoreLe(s[cols[q]], s[cols[p]])
      invariant forall p, q :: 0 <= p < |cols| && 0 <= q < |rest| ==> ScoreLe(s[rest[q]], s[cols[p]])
      decreases c - |cols|
    {
      var b := BestPosition(s, rest);
      var x := rest[b];
      RemoveAtMembers(rest, b);
      assert x !in cols;
      cols := cols + [x];
      rest := RemoveAt(rest, b);
    }
    forall p, j | 0 <= p < |cols| && 0 <= j < |s| && j !in cols
      ensures ScoreLe(s[j], s[cols[p]])
    {
      var q :| 0 <= q < |rest| && rest[q] == j;
    }
  }

  /** The selection reaches a masked column only once every finite column
      is already chosen. */
  lemma MaskedOnlyWhenExhausted(s: seq<Score>, c: nat, cols: seq<nat>, p: nat)
    requires IsTopK(s, c, cols) && p < |cols| && s[cols[p]].NegInf?
    ensures FinIndices(s) <= set q | 0 <= q < |cols| :: cols[q]
  {
    forall j | j in FinIndices(s) ensures j in cols {
      assert s[j].Fin? && !ScoreLe(s[j], s[cols[p]]);
    }
  }

  lemma {:induction false} SubsetCard(a: set<nat>, b: set<nat>)
    requires a <= b
    ensures |a| <= |b|
  {
    if a != {} {
      var x :| x in a;
      SubsetCard(a - {x}, b - {x});
    }
  }

  lemma {:induction false} DistinctCard(cols: seq<nat>)
    requires Distinct(cols)
    ensures |set q | 0 <= q < |cols| :: cols[q]| == |cols|
  {
    if |cols| > 0 {
      var pre := cols[..|cols| - 1];
      DistinctCard(pre);
      var sp := set q | 0 <= q < |pre| :: pre[q];
      var sc := set q | 0 <= q < |cols| :: cols[q];
      assert sc == sp + {cols[|cols| - 1]};
      assert cols[|cols| - 1] !in sp;
    }
  }

  /** When no more columns are asked for than keep a finite score, every
      chosen column is finite. */
  lemma TopKAvoidsMasked(s: seq<Score>, c: nat, cols: seq<nat>)
    requires IsTopK(s, c, cols) && c <= |FinIndices(s)|
    ensures forall p :: 0 <= p < |cols| ==> s[cols[p]].Fin?
  {
    forall p | 0 <= p < |cols| ensures s[cols[p]].Fin? {
      if s[cols[p]].NegInf? {
        MaskedOnlyWhenExhausted(s, c, cols, p);
        var chosen := set q | 0 <= q < |cols| :: cols[q];
        assert FinIndices(s) <= chosen - {cols[p]};
        SubsetCard(FinIndices(s), chosen - {cols[p]});
        DistinctCard(cols);
        assert false;
      }
    }
  }
}
