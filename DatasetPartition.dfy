/**
 How one evaluation dataset is laid out: its first `databaseNum` entries are
 the database images, the next `queriesNum` entries are the queries. The
 feature matrix has one row per dataset index. It is filled first through
 the database subset, then through the query subset, and is then sliced
 back into its database and query parts.
 */
module DatasetPartition {

  /** `list(range(database_num))`: the dataset indices of the database subset. */
  function DatabaseIndices(databaseNum: nat): (r: seq<nat>)
    ensures |r| == databaseNum
  {
    seq(databaseNum, i requires 0 <= i => i)
  }

  /** `list(range(database_num, database_num + queries_num))`: the dataset
      indices of the query subset. */
  function QueryIndices(databaseNum: nat, queriesNum: nat): (r: seq<nat>)
    ensures |r| == queriesNum
  {
    seq(queriesNum, i requires 0 <= i => databaseNum + i)
  }

  /** No dataset index belongs to both subsets. */
  lemma IndicesDisjoint(databaseNum: nat, queriesNum: nat)
    ensures forall k :: k in DatabaseIndices(databaseNum) ==> k < databaseNum
    ensures forall k :: k in QueryIndices(databaseNum, queriesNum) ==> databaseNum <= k < databaseNum + queriesNum
    ensures forall k :: !(k in DatabaseIndices(databaseNum) && k in QueryIndices(databaseNum, queriesNum))
  {
  }

  /** The database subset followed by the query subset is exactly the
      dataset's index range `0 .. databaseNum + queriesNum - 1`, in order:
      together they cover it with no gap. */
  lemma IndicesCover(databaseNum: nat, queriesNum: nat)
    ensures DatabaseIndices(databaseNum) + QueryIndices(databaseNum, queriesNum) == DatabaseIndices(databaseNum + queriesNum)
  {
  }

  /** `all[:database_num]` and `all[database_num:]`, with Python's clamping
      of a slice bound past the end. Nothing is lost or repeated: the two
      parts put back together give `all`. */
  function SplitRows<T>(all: seq<T>, databaseNum: nat): (parts: (seq<T>, seq<T>))
    ensures parts.0 + parts.1 == all
    ensures |parts.0| <= databaseNum
    ensures |parts.1| > 0 ==> |parts.0| == databaseNum
  {
    if databaseNum <= |all| then (all[..databaseNum], all[databaseNum..]) else (all, [])
  }

  /** When the matrix has one row per dataset index, slicing at
      `databaseNum` gives the rows of exactly the database subset and exactly
      the query subset, in subset order. */
  lemma SplitSelectsSubsets<T>(all: seq<T>, databaseNum: nat, queriesNum: nat)
    requires |all| == databaseNum + queriesNum
    ensures |SplitRows(all, databaseNum).0| == databaseNum
    ensures |SplitRows(all, databaseNum).1| == queriesNum
    ensures forall i :: 0 <= i < databaseNum ==>
              SplitRows(all, databaseNum).0[i] == all[DatabaseIndices(databaseNum)[i]]
    ensures forall i :: 0 <= i < queriesNum ==>
              SplitRows(all, databaseNum).1[i] == all[QueryIndices(databaseNum, queriesNum)[i]]
  {
  }

  /** The feature matrix is filled row by row, first for the database subset
      and then for the query subset, each row written at its own dataset
      index. `embed` stands for the network applied to the image at a
      dataset index. Afterwards every row holds its own image's features:
      no query row overwrote a database row or the other way round. */
  method ExtractFeatures<F>(all: array<F>, databaseNum: nat, queriesNum: nat, embed: nat -> F)
    requires all.Length == databaseNum + queriesNum
    modifies all
    ensures forall k :: 0 <= k < all.Length ==> all[k] == embed(k)
  {
    var database := DatabaseIndices(databaseNum);
    for t := 0 to databaseNum
      invariant forall k :: 0 <= k < t ==> all[k] == embed(k)
    {
      var index := database[t];
      all[index] := embed(index);
    }
    var queries := QueryIndices(databaseNum, queriesNum);
    for t := 0 to queriesNum
      invariant forall k :: 0 <= k < databaseNum + t ==> all[k] == embed(k)
    {
      var index := queries[t];
      all[index] := embed(index);
    }
  }
}
