/** The parallel sum of mpi2.py: the root splits data = arange(n) into size
    chunks as evenly as possible (counts, displacements), Scatterv hands chunk
    rank to rank, every rank sums its chunk, and reduce adds the partial sums
    at the root. The collectives are simulated by taking, for every rank, the
    slice of the root's data that Scatterv would deliver. */
module ScatterSum {
  import opened BlockPartition

  /** Python's sum over a list, folded from the left. */
  function Sum(s: seq<int>): int
  {
    if |s| == 0 then 0 else Sum(s[..|s| - 1]) + s[|s| - 1]
  }

  /** The sum of a concatenation is the sum of the sums. */
  lemma {:induction false} SumAppend(a: seq<int>, b: seq<int>)
    ensures Sum(a + b) == Sum(a) + Sum(b)
    decreases |b|
  {
    if |b| == 0 {
      assert a + b == a;
    } else {
      assert (a + b)[..|a + b| - 1] == a + b[..|b| - 1];
      SumAppend(a, b[..|b| - 1]);
    }
  }

  /** The sum of the first k entries of s. */
  function PrefixSum(s: seq<int>, k: nat): int
    requires k <= |s|
  {
    if k == 0 then 0 else PrefixSum(s, k - 1) + s[k - 1]
  }

  /** Python's sum of a prefix is the prefix sum. */
  lemma {:induction false} SumOfPrefix(s: seq<int>, k: nat)
    requires k <= |s|
    ensures Sum(s[..k]) == PrefixSum(s, k)
  {
    if k > 0 {
      assert s[..k][..k - 1] == s[..k - 1];
      SumOfPrefix(s, k - 1);
    }
  }

  /** counts: num_elements // size, plus one for the first num_elements % size ranks. */
  function Counts(n: nat, size: nat): (counts: seq<int>)
    requires size >= 1
    ensures |counts| == size
  {
    seq(size, i => n / size + (if i < n % size then 1 else 0))
  }

  /** displacements: entry i is the sum of the first i counts. */
  function Displacements(counts: seq<int>): (displs: seq<int>)
    ensures |displs| == |counts|
  {
    seq(|counts|, i requires 0 <= i < |counts| => Sum(counts[..i]))
  }

  /** Count i is the length of block i of the row partition of mpi4.py. */
  lemma CountIsBlockLength(n: nat, size: nat, i: nat)
    requires size >= 1 && i < size
    ensures Counts(n, size)[i] == RankBlock(n, size, i).end - RankBlock(n, size, i).start
  {
    RankBlockShape(n, size, i);
  }

  /** The first k counts add up to the start of block k of the row partition
      of mpi4.py, i.e. k * (n / size) + min(k, n % size). */
  lemma {:induction false} CountsPrefixSum(n: nat, size: nat, k: nat)
    requires size >= 1 && k <= size
    ensures PrefixSum(Counts(n, size), k) == RankBlock(n, size, k).start
  {
    if k == 0 {
      BlocksAreContiguous(n, size, 0);
    } else {
      CountsPrefixSum(n, size, k - 1);
      CountIsBlockLength(n, size, k - 1);
      BlocksAreContiguous(n, size, k - 1);
    }
  }

  /** There are size counts, each n / size or one more, never increasing with
      the rank, and they add up to n. */
  lemma CountsSplitEvenly(n: nat, size: nat)
    requires size >= 1
    ensures |Counts(n, size)| == size
    ensures forall i :: 0 <= i < size ==>
              (Counts(n, size)[i] == n / size + 1 <==> i < n % size) &&
              (Counts(n, size)[i] == n / size <==> i >= n % size)
    ensures forall i, j :: 0 <= i <= j < size ==>
              Counts(n, size)[j] <= Counts(n, size)[i] <= Counts(n, size)[j] + 1
    ensures Sum(Counts(n, size)) == n
  {
    CountsPrefixSum(n, size, size);
    SumOfPrefix(Counts(n, size), size);
    assert Counts(n, size)[..size] == Counts(n, size);
    BlocksAreContiguous(n, size, size - 1);
    LastBlockEndsAtRows(n, size);
  }

  /** mpi2.py splits n elements exactly as mpi4.py splits A_rows rows:
      displacement i is the start of block i and count i its length. */
  lemma SameSplitAsBlockPartition(n: nat, size: nat, i: nat)
    requires size >= 1 && i < size
    ensures Displacements(Counts(n, size))[i] == RankBlock(n, size, i).start
    ensures Counts(n, size)[i] == RankBlock(n, size, i).end - RankBlock(n, size, i).start
  {
    SumOfPrefix(Counts(n, size), i);
    CountsPrefixSum(n, size, i);
    CountIsBlockLength(n, size, i);
  }

  /** displacements start at 0, each one is the previous plus its count, they
      have the closed form i * (n / size) + min(i, n % size), and every chunk
      ends within the data. */
  lemma DisplacementsAreOffsets(n: nat, size: nat)
    requires size >= 1
    ensures var counts, displs := Counts(n, size), Displacements(Counts(n, size));
            displs[0] == 0 &&
            (forall i :: 0 <= i < size - 1 ==> displs[i + 1] == displs[i] + counts[i]) &&
            (forall i :: 0 <= i < size ==> displs[i] == i * (n / size) + Min(i, n % size)) &&
            (forall i :: 0 <= i < size ==> 0 <= displs[i] <= displs[i] + counts[i] <= n)
  {
    var counts, displs := Counts(n, size), Displacements(Counts(n, size));
    SameSplitAsBlockPartition(n, size, 0);
    BlocksAreContiguous(n, size, 0);
    forall i | 0 <= i < size
      ensures i < size - 1 ==> displs[i + 1] == displs[i] + counts[i]
      ensures displs[i] == i * (n / size) + Min(i, n % size)
      ensures 0 <= displs[i] <= displs[i] + counts[i] <= n
    {
      SameSplitAsBlockPartition(n, size, i);
      RankBlockShape(n, size, i);
      BlockWithinRows(n, size, i);
      if i < size - 1 {
        SameSplitAsBlockPartition(n, size, i + 1);
        BlocksAreContiguous(n, size, i);
      }
    }
  }

  /** Chunk rank starts at the sum of the counts before it and ends at the sum
      of the counts up to and including it. */
  lemma ChunkBetweenPrefixSums(n: nat, size: nat, rank: nat)
    requires size >= 1 && rank < size
    ensures Displacements(Counts(n, size))[rank] == PrefixSum(Counts(n, size), rank)
    ensures Displacements(Counts(n, size))[rank] + Counts(n, size)[rank] == PrefixSum(Counts(n, size), rank + 1)
  {
    SumOfPrefix(Counts(n, size), rank);
  }

  /** Chunk rank lies within the data. */
  lemma ChunkWithinData(n: nat, size: nat, rank: nat)
    requires size >= 1 && rank < size
    ensures 0 <= Displacements(Counts(n, size))[rank]
    ensures Displacements(Counts(n, size))[rank] + Counts(n, size)[rank] <= n
  {
    ChunkBetweenPrefixSums(n, size, rank);
    PrefixWithinTotal(n, size, rank);
    PrefixWithinTotal(n, size, rank + 1);
  }

  /** The chunk Scatterv delivers to rank: counts[rank] elements of data
      starting at displacements[rank]. */
  function Chunk(data: seq<int>, size: nat, rank: nat): (chunk: seq<int>)
    requires size >= 1 && rank < size
    ensures |chunk| == Counts(|data|, size)[rank]
  {
    ChunkWithinData(|data|, size, rank);
    var start := Displacements(Counts(|data|, size))[rank];
    data[start .. start + Counts(|data|, size)[rank]]
  }

  /** The chunks of ranks 0 .. k-1, one after the other. */
  function Chunks(data: seq<int>, size: nat, k: nat): seq<int>
    requires size >= 1 && k <= size
  {
    if k == 0 then [] else Chunks(data, size, k - 1) + Chunk(data, size, k - 1)
  }

  /** No prefix of the counts adds up to more than n. */
  lemma PrefixWithinTotal(n: nat, size: nat, k: nat)
    requires size >= 1 && k <= size
    ensures 0 <= PrefixSum(Counts(n, size), k) <= n
  {
    CountsPrefixSum(n, size, k);
    if k < size {
      BlockWithinRows(n, size, k);
    } else {
      BlocksAreContiguous(n, size, size - 1);
      LastBlockEndsAtRows(n, size);
    }
  }

  /** Chunk rank is the slice of data between the sum of the counts before it
      and the sum of the counts up to and including it. */
  lemma ChunkIsSlice(data: seq<int>, size: nat, rank: nat)
    requires size >= 1 && rank < size
    ensures var counts := Counts(|data|, size);
            0 <= PrefixSum(counts, rank) <= PrefixSum(counts, rank + 1) <= |data| &&
            Chunk(data, size, rank) == data[PrefixSum(counts, rank)..PrefixSum(counts, rank + 1)]
  {
    ChunkBetweenPrefixSums(|data|, size, rank);
    ChunkWithinData(|data|, size, rank);
  }

  lemma SplitPrefix(data: seq<int>, start: nat, end: nat)
    requires start <= end <= |data|
    ensures data[..end] == data[..start] + data[start..end]
  {
  }

  /** The chunks of the first k ranks are exactly the elements of data before
      the sum of the first k counts. */
  lemma {:induction false} ChunksArePrefix(data: seq<int>, size: nat, k: nat)
    requires size >= 1 && k <= size
    ensures 0 <= PrefixSum(Counts(|data|, size), k) <= |data|
    ensures Chunks(data, size, k) == data[..PrefixSum(Counts(|data|, size), k)]
  {
    PrefixWithinTotal(|data|, size, k);
    if k > 0 {
      ChunksArePrefix(data, size, k - 1);
      ChunkIsSlice(data, size, k - 1);
      var counts := Counts(|data|, size);
      SplitPrefix(data, PrefixSum(counts, k - 1), PrefixSum(counts, k));
    }
  }

  /** The chunks are disjoint, contiguous and together cover the data: laid
      end to end in rank order they give back data. */
  lemma ChunksCoverData(data: seq<int>, size: nat)
    requires size >= 1
    ensures Chunks(data, size, size) == data
  {
    ChunksArePrefix(data, size, size);
    CountsPrefixSum(|data|, size, size);
    BlocksAreContiguous(|data|, size, size - 1);
    LastBlockEndsAtRows(|data|, size);
    assert data[..|data|] == data;
  }

  /** local_sum of every rank: np.sum of its chunk. */
  function LocalSums(data: seq<int>, size: nat): (sums: seq<int>)
    requires size >= 1
    ensures |sums| == size
  {
    seq(size, rank requires 0 <= rank < size => Sum(Chunk(data, size, rank)))
  }

  /** total_sum at the root: reduce with MPI.SUM over the local sums. It is
      the sum of all the data, whatever the number of ranks. */
  function TotalSum(data: seq<int>, size: nat): (total: int)
    requires size >= 1
    ensures total == Sum(data)
  {
    PartialSumsAddUp(data, size, size);
    assert LocalSums(data, size)[..size] == LocalSums(data, size);
    ChunksCoverData(data, size);
    Sum(LocalSums(data, size))
  }

  /** Summing the partial sums of the first k ranks equals summing their
      chunks laid end to end. */
  lemma {:induction false} PartialSumsAddUp(data: seq<int>, size: nat, k: nat)
    requires size >= 1 && k <= size
    ensures Sum(LocalSums(data, size)[..k]) == Sum(Chunks(data, size, k))
  {
    if k > 0 {
      assert LocalSums(data, size)[..k][..k - 1] == LocalSums(data, size)[..k - 1];
      PartialSumsAddUp(data, size, k - 1);
      SumAppend(Chunks(data, size, k - 1), Chunk(data, size, k - 1));
    }
  }

  /** np.arange(n). */
  function Arange(n: nat): (data: seq<int>)
    ensures |data| == n
  {
    seq(n, i => i)
  }

  /** 0 + 1 + ... + (n - 1) == n * (n - 1) / 2. */
  lemma {:induction false} SumArange(n: nat)
    ensures 2 * Sum(Arange(n)) == n * (n - 1)
  {
    if n > 0 {
      assert Arange(n)[..n - 1] == Arange(n - 1);
      SumArange(n - 1);
    }
  }

  /** The total the root prints for num_elements == n is n * (n - 1) / 2. */
  lemma ParallelSumOfArange(n: nat, size: nat)
    requires size >= 1
    ensures TotalSum(Arange(n), size) == Sum(Arange(n)) == n * (n - 1) / 2
  {
    SumArange(n);
  }
}
