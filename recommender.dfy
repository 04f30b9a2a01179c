/** The recommender service: the loaded catalog, the content-based (CBF)
    similarity rows in their own item order, the collaborative-filtering
    (CF) item-item similarity matrix with its column order, the
    reconciliation of the two identifier spaces at load time, and the
    hybrid recommendation for one user's ratings. */
module Recommender {
  import opened Wrappers
  import opened Scoring
  import opened Catalog

  /** Why a recommendation cannot be produced: the CF universe is empty
      (the minimum of an empty score vector is undefined), the clamped k
      leaves the partition index out of bounds, or the catalog holds one
      identifier twice and is asked for anything but its own identifier
      column (the metadata lookup then refuses to reindex). */
  datatype RecError = EmptyItemUniverse | KthOutOfBounds | DuplicateCatalogIds

  /** One recommended place: its identifier, its catalog row (None where
      the catalog has no row for it) and its hybrid score. */
  datatype Recommendation = Recommendation(placeId: int, meta: Option<Place>, score: Score)

  // ---------------------------------------------------------------------
  // Identifier reconciliation
  // ---------------------------------------------------------------------

  /** valid_ids: the set of the catalog's identifier column. */
  function CatalogIds(places: seq<Place>): (r: set<int>)
    ensures forall x :: x in r <==> x in Ids(places)
  {
    set i | 0 <= i < |places| :: places[i].id
  }

  predicate AllKnown(ids: seq<int>, valid: set<int>) {
    forall i :: 0 <= i < |ids| ==> ids[i] in valid
  }

  /** np.where(keep_mask)[0]: the positions, in increasing order, whose
      identifier is a catalog identifier. */
  function KeptPositions(ids: seq<int>, valid: set<int>): (idx: seq<nat>)
    ensures |idx| <= |ids|
    ensures forall t :: 0 <= t < |idx| ==> idx[t] < |ids| && ids[idx[t]] in valid
    ensures forall t, u :: 0 <= t < u < |idx| ==> idx[t] < idx[u]
    ensures forall i :: 0 <= i < |ids| && ids[i] in valid ==> i in idx
    ensures |idx| == |ids| <==> AllKnown(ids, valid)
  {
    if |ids| == 0 then []
    else
      var L := |ids| - 1;
      var p := KeptPositions(ids[..L], valid);
      assert forall i :: 0 <= i < L ==> ids[..L][i] == ids[i];
      if ids[L] in valid then p + [L] else p
  }

  /** [item_ids[i] for i in idx]. */
  function Pick(ids: seq<int>, idx: seq<nat>): (r: seq<int>)
    requires forall t :: 0 <= t < |idx| ==> idx[t] < |ids|
    ensures |r| == |idx|
    ensures forall t :: 0 <= t < |r| ==> r[t] in ids
  {
    seq(|idx|, t requires 0 <= t < |idx| => ids[idx[t]])
  }

  /** item_sim[np.ix_(idx, idx)]: the rows and the columns at idx. */
  function SubMatrix(m: seq<seq<real>>, idx: seq<nat>): (r: seq<seq<real>>)
    requires SimRows(m, |m|) && forall t :: 0 <= t < |idx| ==> idx[t] < |m|
    ensures SimRows(r, |idx|)
  {
    seq(|idx|, a requires 0 <= a < |idx| =>
      seq(|idx|, b requires 0 <= b < |idx| => m[idx[a]][idx[b]]))
  }

  /** The catalog identifiers of ids in their original order: the reference
      the reconciled column order is compared with. */
  function KnownInOrder(ids: seq<int>, valid: set<int>): seq<int> {
    if |ids| == 0 then []
    else
      var L := |ids| - 1;
      KnownInOrder(ids[..L], valid) + (if ids[L] in valid then [ids[L]] else [])
  }

  /** Reconciliation keeps exactly the catalog identifiers, in their
      original relative order. */
  lemma {:induction false} PickKeptIsKnownInOrder(ids: seq<int>, valid: set<int>)
    ensures Pick(ids, KeptPositions(ids, valid)) == KnownInOrder(ids, valid)
  {
    if |ids| > 0 {
      var L := |ids| - 1;
      PickKeptIsKnownInOrder(ids[..L], valid);
      var p := KeptPositions(ids[..L], valid);
      assert Pick(ids, p) == Pick(ids[..L], p);
      if ids[L] in valid {
        assert Pick(ids, p + [L]) == Pick(ids, p) + [ids[L]];
      }
    }
  }

  /** Distinct identifiers stay distinct after reconciliation, so the
      rebuilt map sends each kept identifier to its own new column. */
  lemma PickKeptDistinct(ids: seq<int>, valid: set<int>)
    requires Distinct(ids)
    ensures Distinct(Pick(ids, KeptPositions(ids, valid)))
    ensures var r := Pick(ids, KeptPositions(ids, valid));
      forall j :: 0 <= j < |r| ==> r[j] in IndexMap(r) && IndexMap(r)[r[j]] == j
  {
    var r := Pick(ids, KeptPositions(ids, valid));
    IndexMapInverts(r);
  }

  /** The map from identifier to CF column agrees with the column order. */
  predicate ColumnsConsistent(itemIds: seq<int>, itemToCol: map<int, nat>) {
    forall j :: 0 <= j < |itemIds| && itemIds[j] in itemToCol ==> itemToCol[itemIds[j]] == j
  }

  // ---------------------------------------------------------------------
  // The hybrid score
  // ---------------------------------------------------------------------

  /** The loaded state every request relies on: square similarity matrices
      over their item orders and CF columns within range. */
  predicate WellShaped(itemSim: seq<seq<real>>, itemIds: seq<int>, itemToCol: map<int, nat>,
                       placeIdOrder: seq<int>, cbfSim: seq<seq<real>>) {
    SimRows(itemSim, |itemIds|) && ColumnsBelow(itemToCol, |itemIds|) && SimRows(cbfSim, |placeIdOrder|)
  }

  /** s_cf = item_sim . v over the CF columns. */
  function CfScore(ratings: Ratings, itemSim: seq<seq<real>>, itemToCol: map<int, nat>, n: nat): (r: seq<real>)
    requires SimRows(itemSim, n) && ColumnsBelow(itemToCol, n)
    ensures |r| == n
    ensures (forall k :: 0 <= k < |ratings| ==> ratings[k].0 !in itemToCol) ==> forall a :: 0 <= a < n ==> r[a] == 0.0
  {
    UnmappedRatingsScoreZero(ratings, itemSim, itemToCol, n);
    MatVec(itemSim, CfRatingVector(ratings, itemToCol, n))
  }

  lemma UnmappedRatingsScoreZero(ratings: Ratings, itemSim: seq<seq<real>>, itemToCol: map<int, nat>, n: nat)
    requires SimRows(itemSim, n) && ColumnsBelow(itemToCol, n)
    ensures (forall k :: 0 <= k < |ratings| ==> ratings[k].0 !in itemToCol) ==>
              forall a :: 0 <= a < n ==> MatVec(itemSim, CfRatingVector(ratings, itemToCol, n))[a] == 0.0
  {
    var v := CfRatingVector(ratings, itemToCol, n);
    if forall k :: 0 <= k < |ratings| ==> ratings[k].0 !in itemToCol {
      assert forall j, k :: 0 <= j < n ==> !RatedInto(ratings, itemToCol, k, j);
      MatVecZero(itemSim, v);
    }
  }

  /** s_cbf_aligned: the CBF score brought into CF column order. */
  function AlignedCbfScore(ratings: Ratings, itemIds: seq<int>, placeIdOrder: seq<int>, cbfSim: seq<seq<real>>): (r: seq<real>)
    requires SimRows(cbfSim, |placeIdOrder|)
    ensures |r| == |itemIds|
    ensures forall idx :: 0 <= idx < |itemIds| && itemIds[idx] !in placeIdOrder ==> r[idx] == 0.0
    ensures (forall k :: 0 <= k < |ratings| ==> ratings[k].0 !in placeIdOrder) ==>
              forall idx :: 0 <= idx < |itemIds| ==> r[idx] == 0.0
  {
    var pidToRow := IndexMap(placeIdOrder);
    var sCbf := CbfScores(ratings, pidToRow, cbfSim);
    AlignToCf(itemIds, pidToRow, sCbf)
  }

  /** Masking the blend of two normalised vectors: -inf exactly on the
      masked columns, a score in [0, 1] elsewhere when alpha is in [0, 1]. */
  lemma MaskedBlendFacts(alpha: real, a: seq<real>, b: seq<real>, seen: set<nat>)
    requires |a| == |b|
    requires forall i :: 0 <= i < |a| ==> 0.0 <= a[i] <= 1.0 && 0.0 <= b[i] <= 1.0
    ensures var s := Mask(Blend(alpha, a, b), seen);
      (forall j :: 0 <= j < |s| ==> (s[j].NegInf? <==> j in seen))
      && (0.0 <= alpha <= 1.0 ==> forall j :: 0 <= j < |s| && s[j].Fin? ==> 0.0 <= s[j].value <= 1.0)
  {
  }

  /** s after masking: the blend of the normalised CF score and the
      normalised CBF score realigned to CF order, -inf on rated columns.
      Exactly the rated columns are -inf, and for alpha in [0, 1] every
      other score lies in [0, 1]. */
  function HybridScores(ratings: Ratings, alpha: real, itemSim: seq<seq<real>>, itemIds: seq<int>,
                        itemToCol: map<int, nat>, placeIdOrder: seq<int>, cbfSim: seq<seq<real>>): (s: seq<Score>)
    requires |itemIds| > 0 && WellShaped(itemSim, itemIds, itemToCol, placeIdOrder, cbfSim)
    ensures |s| == |itemIds|
    ensures forall j :: 0 <= j < |s| ==> (s[j].NegInf? <==> j in SeenCols(ratings, itemToCol))
    ensures 0.0 <= alpha <= 1.0 ==> forall j :: 0 <= j < |s| && s[j].Fin? ==> 0.0 <= s[j].value <= 1.0
  {
    var cfN := Norm01(CfScore(ratings, itemSim, itemToCol, |itemIds|));
    var cbfN := Norm01(AlignedCbfScore(ratings, itemIds, placeIdOrder, cbfSim));
    MaskedBlendFacts(alpha, cfN, cbfN, SeenCols(ratings, itemToCol));
    Mask(Blend(alpha, cfN, cbfN), SeenCols(ratings, itemToCol))
  }

  /** HybridScores unfolded: the mask applied to the blend of the two
      normalised scores. */
  lemma HybridScoresIsMaskedBlend(ratings: Ratings, alpha: real, itemSim: seq<seq<real>>, itemIds: seq<int>,
                                  itemToCol: map<int, nat>, placeIdOrder: seq<int>, cbfSim: seq<seq<real>>)
    requires |itemIds| > 0 && WellShaped(itemSim, itemIds, itemToCol, placeIdOrder, cbfSim)
    ensures HybridScores(ratings, alpha, itemSim, itemIds, itemToCol, placeIdOrder, cbfSim)
            == Mask(Blend(alpha, Norm01(CfScore(ratings, itemSim, itemToCol, |itemIds|)),
                                 Norm01(AlignedCbfScore(ratings, itemIds, placeIdOrder, cbfSim))),
                    SeenCols(ratings, itemToCol))
  {
  }

  /** alpha = 1: the hybrid score is the normalised CF score alone. */
  lemma HybridAlphaOne(ratings: Ratings, itemSim: seq<seq<real>>, itemIds: seq<int>,
                       itemToCol: map<int, nat>, placeIdOrder: seq<int>, cbfSim: seq<seq<real>>)
    requires |itemIds| > 0 && WellShaped(itemSim, itemIds, itemToCol, placeIdOrder, cbfSim)
    ensures HybridScores(ratings, 1.0, itemSim, itemIds, itemToCol, placeIdOrder, cbfSim)
            == Mask(Norm01(CfScore(ratings, itemSim, itemToCol, |itemIds|)), SeenCols(ratings, itemToCol))
  {
  }

  /** alpha = 0: the hybrid score is the normalised aligned CBF score alone. */
  lemma HybridAlphaZero(ratings: Ratings, itemSim: seq<seq<real>>, itemIds: seq<int>,
                        itemToCol: map<int, nat>, placeIdOrder: seq<int>, cbfSim: seq<seq<real>>)
    requires |itemIds| > 0 && WellShaped(itemSim, itemIds, itemToCol, placeIdOrder, cbfSim)
    ensures HybridScores(ratings, 0.0, itemSim, itemIds, itemToCol, placeIdOrder, cbfSim)
            == Mask(Norm01(AlignedCbfScore(ratings, itemIds, placeIdOrder, cbfSim)), SeenCols(ratings, itemToCol))
  {
  }

  /** With alpha = 1 two unrated columns rank as their CF scores do. */
  lemma AlphaOneRanksByCf(ratings: Ratings, itemSim: seq<seq<real>>, itemIds: seq<int>,
                          itemToCol: map<int, nat>, placeIdOrder: seq<int>, cbfSim: seq<seq<real>>, i: nat, j: nat)
    requires |itemIds| > 0 && WellShaped(itemSim, itemIds, itemToCol, placeIdOrder, cbfSim)
    requires i < |itemIds| && j < |itemIds|
    requires i !in SeenCols(ratings, itemToCol) && j !in SeenCols(ratings, itemToCol)
    requires CfScore(ratings, itemSim, itemToCol, |itemIds|)[i] <= CfScore(ratings, itemSim, itemToCol, |itemIds|)[j]
    ensures ScoreLe(HybridScores(ratings, 1.0, itemSim, itemIds, itemToCol, placeIdOrder, cbfSim)[i],
                    HybridScores(ratings, 1.0, itemSim, itemIds, itemToCol, placeIdOrder, cbfSim)[j])
  {
    HybridAlphaOne(ratings, itemSim, itemIds, itemToCol, placeIdOrder, cbfSim);
  }

  /** With alpha = 0 two unrated columns rank as their aligned CBF scores do. */
  lemma AlphaZeroRanksByCbf(ratings: Ratings, itemSim: seq<seq<real>>, itemIds: seq<int>,
                            itemToCol: map<int, nat>, placeIdOrder: seq<int>, cbfSim: seq<seq<real>>, i: nat, j: nat)
    requires |itemIds| > 0 && WellShaped(itemSim, itemIds, itemToCol, placeIdOrder, cbfSim)
    requires i < |itemIds| && j < |itemIds|
    requires i !in SeenCols(ratings, itemToCol) && j !in SeenCols(ratings, itemToCol)
    requires AlignedCbfScore(ratings, itemIds, placeIdOrder, cbfSim)[i] <= AlignedCbfScore(ratings, itemIds, placeIdOrder, cbfSim)[j]
    ensures ScoreLe(HybridScores(ratings, 0.0, itemSim, itemIds, itemToCol, placeIdOrder, cbfSim)[i],
                    HybridScores(ratings, 0.0, itemSim, itemIds, itemToCol, placeIdOrder, cbfSim)[j])
  {
    HybridAlphaZero(ratings, itemSim, itemIds, itemToCol, placeIdOrder, cbfSim);
  }

  /** When every column is rated, each selected column is a rated one: the
      mask lowers rated columns to the bottom of the ranking but does not
      remove them from it. */
  lemma AllRatedStillSelected(ratings: Ratings, alpha: real, itemSim: seq<seq<real>>, itemIds: seq<int>,
                              itemToCol: map<int, nat>, placeIdOrder: seq<int>, cbfSim: seq<seq<real>>,
                              c: nat, cols: seq<nat>)
    requires |itemIds| > 0 && WellShaped(itemSim, itemIds, itemToCol, placeIdOrder, cbfSim)
    requires forall j :: 0 <= j < |itemIds| ==> j in SeenCols(ratings, itemToCol)
    requires IsTopK(HybridScores(ratings, alpha, itemSim, itemIds, itemToCol, placeIdOrder, cbfSim), c, cols)
    ensures forall p :: 0 <= p < |cols| ==> cols[p] in SeenCols(ratings, itemToCol)
    ensures forall p :: 0 <= p < |cols| ==>
      HybridScores(ratings, alpha, itemSim, itemIds, itemToCol, placeIdOrder, cbfSim)[cols[p]] == NegInf
  {
  }

  /** The rows handed out: identifier, catalog row and score of every
      selected column, in selection order. The catalog indexed by its
      identifier column is reindexed by the selected identifiers: a target
      equal to that column hands the catalog back row by row; any other
      target is refused when an identifier repeats, and is otherwise
      looked up identifier by identifier. */
  function Join(places: seq<Place>, itemIds: seq<int>, s: seq<Score>, cols: seq<nat>): (r: Result<seq<Recommendation>, RecError>)
    requires forall p :: 0 <= p < |cols| ==> cols[p] < |itemIds| && cols[p] < |s|
    ensures r.Failure? <==> Pick(itemIds, cols) != Ids(places) && !Distinct(Ids(places))
    ensures r.Failure? ==> r.error == DuplicateCatalogIds
    ensures r.Success? ==> |r.value| == |cols|
    ensures r.Success? ==> forall p :: 0 <= p < |r.value| ==>
              r.value[p].placeId == itemIds[cols[p]] && r.value[p].score == s[cols[p]]
    ensures r.Success? ==> forall p :: 0 <= p < |r.value| ==>
              (r.value[p].meta.None? <==> forall i :: 0 <= i < |places| ==> places[i].id != r.value[p].placeId)
    ensures r.Success? ==> forall p :: 0 <= p < |r.value| && r.value[p].meta.Some? ==>
              r.value[p].meta.value in places && r.value[p].meta.value.id == r.value[p].placeId
    ensures r.Success? && Pick(itemIds, cols) == Ids(places) ==>
              forall p :: 0 <= p < |r.value| ==> p < |places| && r.value[p].meta == Some(places[p])
  {
    if Pick(itemIds, cols) == Ids(places) then
      Success(seq(|cols|, p requires 0 <= p < |cols| =>
        Recommendation(itemIds[cols[p]], if p < |places| then Some(places[p]) else None, s[cols[p]])))
    else if !Distinct(Ids(places)) then
      Failure(DuplicateCatalogIds)
    else
      Success(seq(|cols|, p requires 0 <= p < |cols| =>
        Recommendation(itemIds[cols[p]], FindPlace(places, itemIds[cols[p]]), s[cols[p]])))
  }

  /** A catalog that repeats identifier 7, asked for exactly its own
      identifier column, is not refused: it comes back row by row, so the
      second selection carries the second row rather than the first. */
  lemma RepeatedIdsReturnedAsIs(places: seq<Place>, itemIds: seq<int>, s: seq<Score>, cols: seq<nat>)
    requires |places| == 2 && places[0].id == 7 && places[1].id == 7
    requires itemIds == [7, 7, 7] && |s| == 3 && cols == [0, 1]
    ensures !Distinct(Ids(places))
    ensures Join(places, itemIds, s, cols).Success?
    ensures |Join(places, itemIds, s, cols).value| == 2
    ensures Join(places, itemIds, s, cols).value[1].meta == Some(places[1])
  {
    var top := Pick(itemIds, cols);
    assert top[0] == 7 && top[1] == 7;
    assert top == Ids(places);
  }

  /** Over a catalog whose identifiers are unique the join never fails. */
  lemma JoinUniqueSucceeds(places: seq<Place>, itemIds: seq<int>, s: seq<Score>, cols: seq<nat>)
    requires forall p :: 0 <= p < |cols| ==> cols[p] < |itemIds| && cols[p] < |s|
    requires Distinct(Ids(places))
    ensures Join(places, itemIds, s, cols).Success?
  {
  }

  /** The columns that a request leaves unmasked. */
  function UnmaskedCount(ratings: Ratings, itemToCol: map<int, nat>, n: nat): nat {
    |set j | 0 <= j < n && j !in SeenCols(ratings, itemToCol)|
  }

  /** A rated place is never recommended back, as long as no more places
      are asked for than remain unrated and the column map agrees with the
      column order. */
  lemma RatedNeverRecommended(ratings: Ratings, alpha: real, itemSim: seq<seq<real>>, itemIds: seq<int>,
                              itemToCol: map<int, nat>, placeIdOrder: seq<int>, cbfSim: seq<seq<real>>,
                              c: nat, cols: seq<nat>)
    requires |itemIds| > 0 && WellShaped(itemSim, itemIds, itemToCol, placeIdOrder, cbfSim)
    requires ColumnsConsistent(itemIds, itemToCol)
    requires IsTopK(HybridScores(ratings, alpha, itemSim, itemIds, itemToCol, placeIdOrder, cbfSim), c, cols)
    requires c <= UnmaskedCount(ratings, itemToCol, |itemIds|)
    ensures forall p, q :: 0 <= p < |cols| && 0 <= q < |ratings| && ratings[q].0 in itemToCol ==>
              itemIds[cols[p]] != ratings[q].0
  {
    var s := HybridScores(ratings, alpha, itemSim, itemIds, itemToCol, placeIdOrder, cbfSim);
    var seen := SeenCols(ratings, itemToCol);
    FinIndicesOfMasked(s, seen);
    TopKAvoidsMasked(s, c, cols);
    forall p, q | 0 <= p < |cols| && 0 <= q < |ratings| && ratings[q].0 in itemToCol
      ensures itemIds[cols[p]] != ratings[q].0
    {
      var j, pid := cols[p], ratings[q].0;
      assert j !in seen;
      assert itemToCol[pid] in seen;
    }
  }

  /** The finite columns of a score vector whose minus-infinity entries are
      exactly those in seen. */
  lemma FinIndicesOfMasked(s: seq<Score>, seen: set<nat>)
    requires forall j :: 0 <= j < |s| ==> (s[j].NegInf? <==> j in seen)
    ensures FinIndices(s) == set j | 0 <= j < |s| && j !in seen
  {
  }

  // ---------------------------------------------------------------------
  // The service
  // ---------------------------------------------------------------------

  class RecommenderService {
    /** places_df, restricted to the columns handed out. */
    var places: seq<Place>
    /** place_id_order: the identifier of each CBF row. */
    var placeIdOrder: seq<int>
    /** cosine_similarity(X[i], X) for every CBF row i. */
    var cbfSim: seq<seq<real>>
    /** item_sim: the CF item-item similarity matrix. */
    var itemSim: seq<seq<real>>
    /** item_ids: the identifier of each CF column. */
    var itemIds: seq<int>
    /** item_to_col: the CF column of an identifier. */
    var itemToCol: map<int, nat>

    predicate Valid()
      reads this
    {
      WellShaped(itemSim, itemIds, itemToCol, placeIdOrder, cbfSim)
    }

    /** The service over already-loaded artifacts, reconciled at once. */
    constructor(places: seq<Place>, placeIdOrder: seq<int>, cbfSim: seq<seq<real>>,
                itemSim: seq<seq<real>>, itemIds: seq<int>, itemToCol: map<int, nat>)
      requires WellShaped(itemSim, itemIds, itemToCol, placeIdOrder, cbfSim)
      ensures Valid()
      ensures AllKnown(this.itemIds, CatalogIds(places))
      ensures this.places == places && this.placeIdOrder == placeIdOrder && this.cbfSim == cbfSim
      ensures AllKnown(itemIds, CatalogIds(places)) ==>
                this.itemIds == itemIds && this.itemSim == itemSim && this.itemToCol == itemToCol
      ensures !AllKnown(itemIds, CatalogIds(places)) ==>
                var idx := KeptPositions(itemIds, CatalogIds(places));
                this.itemIds == Pick(itemIds, idx) && this.itemSim == SubMatrix(itemSim, idx)
                && this.itemToCol == IndexMap(this.itemIds)
    {
      this.places := places;
      this.placeIdOrder := placeIdOrder;
      this.cbfSim := cbfSim;
      this.itemSim := itemSim;
      this.itemIds := itemIds;
      this.itemToCol := itemToCol;
      new;
      SanityAlignIds();
    }

    /** Drops the CF columns whose identifier the catalog does not know:
        the matrix loses those rows and columns, the column order keeps the
        rest in order, and the identifier map is rebuilt over it. Nothing
        changes when the column order is empty or every identifier is known. */
    method SanityAlignIds()
      requires Valid()
      modifies this
      ensures Valid()
      ensures AllKnown(itemIds, CatalogIds(places))
      ensures places == old(places) && placeIdOrder == old(placeIdOrder) && cbfSim == old(cbfSim)
      ensures AllKnown(old(itemIds), CatalogIds(places)) ==>
                itemIds == old(itemIds) && itemSim == old(itemSim) && itemToCol == old(itemToCol)
      ensures !AllKnown(old(itemIds), CatalogIds(places)) ==>
                var idx := KeptPositions(old(itemIds), CatalogIds(places));
                itemIds == Pick(old(itemIds), idx) && itemSim == SubMatrix(old(itemSim), idx)
                && itemToCol == IndexMap(itemIds)
    {
      var validIds := CatalogIds(places);
      if |itemIds| == 0 {
        return;
      }
      var idx := KeptPositions(itemIds, validIds);
      if |idx| < |itemIds| {
        itemSim := SubMatrix(itemSim, idx);
        itemIds := Pick(itemIds, idx);
        itemToCol := IndexMap(itemIds);
      }
    }

    /** The CF and CBF loops of recommend_hybrid_for_user and the blend of
        their normalised scores. */
    method BlendedScores(ratings: Ratings, alpha: real) returns (blended: seq<real>)
      requires Valid() && |itemIds| > 0
      ensures blended == Blend(alpha, Norm01(CfScore(ratings, itemSim, itemToCol, |itemIds|)),
                                      Norm01(AlignedCbfScore(ratings, itemIds, placeIdOrder, cbfSim)))
    {
      var n := |itemIds|;
      var v := BuildRatingVector(ratings, itemToCol, n);
      var sCf := MatVec(itemSim, v);
      var pidToRow := IndexMap(placeIdOrder);
      var sCbf := AccumulateCbf(ratings, pidToRow, cbfSim);
      var aligned := AlignCbfToCf(itemIds, pidToRow, sCbf);
      blended := Blend(alpha, Norm01(sCf), Norm01(aligned));
    }

    /** The scoring of recommend_hybrid_for_user up to and including the
        masking of the rated columns. */
    method ScoreColumns(ratings: Ratings, alpha: real) returns (s: seq<Score>)
      requires Valid() && |itemIds| > 0
      ensures s == HybridScores(ratings, alpha, itemSim, itemIds, itemToCol, placeIdOrder, cbfSim)
    {
      var n := |itemIds|;
      var blended := BlendedScores(ratings, alpha);
      var seen := CollectSeenCols(ratings, itemToCol);
      SeenColsBelow(ratings, itemToCol, n);
      s := MaskScores(blended, seen);
      HybridScoresIsMaskedBlend(ratings, alpha, itemSim, itemIds, itemToCol, placeIdOrder, cbfSim);
    }

    /** recommend_hybrid_for_user: the count chosen by TopCount of the best
        hybrid scores, in descending order, mapped back to catalog rows;
        the failures of the empty universe, the out-of-bounds partition
        index and the duplicated catalog identifier otherwise. */
    method RecommendHybridForUser(ratings: Ratings, k: int, alpha: real) returns (r: Result<seq<Recommendation>, RecError>)
      requires Valid()
      ensures |itemIds| == 0 <==> r == Failure(EmptyItemUniverse)
      ensures |itemIds| > 0 ==>
                (TopCount(k, |itemIds|).None? <==> r == Failure(KthOutOfBounds))
      ensures |itemIds| > 0 && TopCount(k, |itemIds|).Some? && Distinct(Ids(places)) ==> r.Success?
      ensures r == Failure(DuplicateCatalogIds) ==> !Distinct(Ids(places))
      ensures r.Success? || r == Failure(DuplicateCatalogIds) ==>
                |itemIds| > 0 && TopCount(k, |itemIds|).Some? &&
                var s := HybridScores(ratings, alpha, itemSim, itemIds, itemToCol, placeIdOrder, cbfSim);
                exists cols :: IsTopK(s, TopCount(k, |itemIds|).value, cols) && r == Join(places, itemIds, s, cols)
    {
      var n := |itemIds|;
      if n == 0 {
        return Failure(EmptyItemUniverse);
      }
      var s := ScoreColumns(ratings, alpha);
      var count := TopCount(k, n);
      if count.None? {
        return Failure(KthOutOfBounds);
      }
      var cols := SelectTopK(s, count.value);
      r := Join(places, itemIds, s, cols);
    }

    /** Every place a successful request returns has its catalog row once
        the column order only holds catalog identifiers. */
    lemma RecommendationsHaveRows(ratings: Ratings, alpha: real, c: nat, cols: seq<nat>)
      requires Valid() && |itemIds| > 0 && AllKnown(itemIds, CatalogIds(places))
      requires IsTopK(HybridScores(ratings, alpha, itemSim, itemIds, itemToCol, placeIdOrder, cbfSim), c, cols)
      ensures var j := Join(places, itemIds, HybridScores(ratings, alpha, itemSim, itemIds, itemToCol, placeIdOrder, cbfSim), cols);
        j.Success? ==> forall p :: 0 <= p < |j.value| ==> j.value[p].meta.Some? && j.value[p].meta.value.id == j.value[p].placeId
    {
      var j := Join(places, itemIds, HybridScores(ratings, alpha, itemSim, itemIds, itemToCol, placeIdOrder, cbfSim), cols);
      forall p | j.Success? && 0 <= p < |j.value| ensures j.value[p].meta.Some? {
        var id := itemIds[cols[p]];
        assert id in CatalogIds(places);
        var i :| 0 <= i < |places| && places[i].id == id;
      }
    }

    /** top_rated(k) over the loaded catalog: head(k) of its rows in
        non-increasing rating order, none rated below a row left out. */
    function TopRatedPlaces(k: int): (r: seq<Place>)
      reads this
      ensures |r| == HeadCount(k, |places|)
      ensures RatingDesc(r) && multiset(r) <= multiset(places)
      ensures exists rest: seq<Place> :: multiset(r + rest) == multiset(places)
                && forall a, b :: a in r && b in rest ==> b.rating <= a.rating
    {
      TopRated(places, k)
    }

    /** sample_places(n, seed), the seeded generator given as rng: a
        negative n is refused, otherwise min(n, len) rows at distinct
        catalog positions. */
    function SampleOnboarding(n: int, rng: nat -> nat): (r: Result<seq<Place>, SampleError>)
      reads this
      ensures n < 0 <==> r.Failure?
      ensures r.Success? ==> |r.value| == (if n <= |places| then n else |places|)
      ensures r.Success? ==>
        exists idx: seq<nat> ::
          && |idx| == |r.value|
          && Distinct(idx)
          && (forall a :: 0 <= a < |idx| ==> idx[a] < |places| && r.value[a] == places[idx[a]])
    {
      SamplePlaces(places, n, rng)
    }
  }
}
