/**
  The allocation table: first-fit allocation, its copy in the reserved
  blocks, and chains of blocks linked through it.
*/
module Fat {
  import opened FsTypes
  import opened BlockStore

  // ----- Allocation (next_free_fat) -------------------------------------------

  /** Some entry of the table is free. */
  predicate HasFree(fat: seq<int>) {
    exists j :: 0 <= j < |fat| && fat[j] == UNUSED
  }

  /** Number of free entries in the table. */
  function FreeCount(fat: seq<int>): (k: nat)
    ensures k <= |fat|
  {
    if |fat| == 0 then 0
    else FreeCount(fat[..|fat| - 1]) + (if fat[|fat| - 1] == UNUSED then 1 else 0)
  }

  /** Setting one entry changes the free count by what that entry was and
      becomes. */
  lemma {:induction false} FreeCountUpdate(fat: seq<int>, b: int, x: int)
    requires 0 <= b < |fat|
    ensures FreeCount(fat[b := x]) + (if fat[b] == UNUSED then 1 else 0)
         == FreeCount(fat) + (if x == UNUSED then 1 else 0)
    decreases |fat|
  {
    var n := |fat| - 1;
    var f' := fat[b := x];
    if b < n {
      assert f'[..n] == fat[..n][b := x];
      FreeCountUpdate(fat[..n], b, x);
    } else {
      assert f'[..n] == fat[..n];
    }
  }

  /** The count is positive exactly when some entry is free. */
  lemma {:induction false} FreeCountHasFree(fat: seq<int>)
    ensures FreeCount(fat) > 0 <==> HasFree(fat)
    decreases |fat|
  {
    if |fat| > 0 {
      var n := |fat| - 1;
      FreeCountHasFree(fat[..n]);
      if HasFree(fat[..n]) {
        var j :| 0 <= j < n && fat[..n][j] == UNUSED;
        assert fat[j] == UNUSED;
      }
      if fat[n] != UNUSED && HasFree(fat) {
        var j :| 0 <= j < |fat| && fat[j] == UNUSED;
        assert fat[..n][j] == UNUSED;
      }
    }
  }

  /** Index of the first free entry at or after `from`, or -1. */
  function FirstUnused(fat: seq<int>, from: nat): (r: int)
    requires from <= |fat|
    decreases |fat| - from
    ensures r == -1 <==> forall j :: from <= j < |fat| ==> fat[j] != UNUSED
    ensures r != -1 ==> from <= r < |fat| && fat[r] == UNUSED
    ensures r != -1 ==> forall j :: from <= j < r ==> fat[j] != UNUSED
  {
    if from == |fat| then -1
    else if fat[from] == UNUSED then from
    else FirstUnused(fat, from + 1)
  }

  /** The block next_free_fat hands out and the table it leaves behind. */
  datatype Allocation = Allocation(block: int, fat: seq<int>)

  /** next_free_fat: claim the lowest free entry by marking it end-of-chain.
      With no free entry the answer is -1 and the table is unchanged. */
  function NextFreeFat(fat: seq<int>): (a: Allocation)
    ensures a.block == -1 <==> !HasFree(fat)
    ensures a.block == -1 ==> a.fat == fat
    ensures a.block != -1 ==>
      && 0 <= a.block < |fat| && fat[a.block] == UNUSED
      && (forall j :: 0 <= j < a.block ==> fat[j] != UNUSED)
      && |a.fat| == |fat| && a.fat[a.block] == ENDOFCHAIN
      && (forall j :: 0 <= j < |fat| && j != a.block ==> a.fat[j] == fat[j])
  {
    var b := FirstUnused(fat, 0);
    if b == -1 then Allocation(-1, fat) else Allocation(b, fat[b := ENDOFCHAIN])
  }

  /** Allocation keeps every table value in range. */
  lemma NextFreeFatKeepsLinks(fat: seq<int>)
    requires TableOk(fat)
    ensures TableOk(NextFreeFat(fat).fat)
  {
  }

  // ----- The table's copy in blocks 1..FAT_BLOCKS (copyFAT) -------------------

  /** Entry `j` as stored in the table blocks: block 1 + j / FATENTRYCOUNT,
      slot j % FATENTRYCOUNT. */
  function StoredLink(blocks: seq<Block>, j: nat): Option<int>
    requires j < MAXBLOCKS && |blocks| == MAXBLOCKS
  {
    match blocks[1 + j / FATENTRYCOUNT]
    case Table(links) =>
      if j % FATENTRYCOUNT < |links| then Some(links[j % FATENTRYCOUNT]) else None
    case _ => None
  }

  /** The table blocks hold the in-memory table slot for slot. */
  predicate Mirror(d: Disk)
    requires ValidStore(d)
  {
    forall j :: 0 <= j < MAXBLOCKS ==> StoredLink(d.blocks, j) == Some(d.fat[j])
  }

  /** copyFAT: serialise the table, FATENTRYCOUNT entries per block, into
      blocks 1..FAT_BLOCKS. Nothing else changes. */
  function CopyFat(d: Disk): (d': Disk)
    requires ValidStore(d)
    ensures ValidStore(d') && Mirror(d')
    ensures forall y :: 1 <= y <= FAT_BLOCKS ==> d'.blocks[y].Table?
    ensures forall y :: 0 <= y < MAXBLOCKS && !(1 <= y <= FAT_BLOCKS) ==> d'.blocks[y] == d.blocks[y]
    ensures d'.fat == d.fat && d'.rootDir == d.rootDir && d'.currentDir == d.currentDir
  {
    TableFillsReservedBlocks();
    var d' := d.(blocks := d.blocks[1 := Table(d.fat[..FATENTRYCOUNT])][2 := Table(d.fat[FATENTRYCOUNT..])]);
    forall j | 0 <= j < MAXBLOCKS
      ensures StoredLink(d'.blocks, j) == Some(d.fat[j])
    {
      if j < FATENTRYCOUNT {
        assert j / FATENTRYCOUNT == 0 && j % FATENTRYCOUNT == j;
      } else {
        assert j / FATENTRYCOUNT == 1 && j % FATENTRYCOUNT == j - FATENTRYCOUNT;
      }
    }
    d'
  }

  /** The mirror only depends on the table and the two table blocks. */
  lemma MirrorKept(a: Disk, b: Disk)
    requires ValidStore(a) && ValidStore(b) && Mirror(a) && a.fat == b.fat
    requires forall y :: 1 <= y <= FAT_BLOCKS ==> b.blocks[y] == a.blocks[y]
    ensures Mirror(b)
  {
    TableFillsReservedBlocks();
    forall j | 0 <= j < MAXBLOCKS ensures StoredLink(b.blocks, j) == Some(b.fat[j]) {
      assert 1 <= 1 + j / FATENTRYCOUNT <= FAT_BLOCKS;
      assert StoredLink(b.blocks, j) == StoredLink(a.blocks, j);
    }
  }

  // ----- Chains -----------------------------------------------------------------

  /** The chain starting at `b` has exactly `n` links after `b`: every block on
      it is a block index, none is free, and the n-th successor is the last. */
  predicate ChainOfLength(fat: seq<int>, b: int, n: nat)
    decreases n
  {
    && 0 <= b < |fat|
    && fat[b] != UNUSED
    && if n == 0 then fat[b] == ENDOFCHAIN
       else fat[b] != ENDOFCHAIN && ChainOfLength(fat, fat[b], n - 1)
  }

  /** The chain from `b` stays in range, never reaches a free block, and ends. */
  ghost predicate WellFormedChain(fat: seq<int>, b: int) {
    exists n: nat :: ChainOfLength(fat, b, n)
  }

  /** A chain has a single length. */
  lemma {:induction false} ChainLengthUnique(fat: seq<int>, b: int, n: nat, m: nat)
    requires ChainOfLength(fat, b, n) && ChainOfLength(fat, b, m)
    ensures n == m
    decreases n
  {
    if n != 0 && m != 0 {
      ChainLengthUnique(fat, fat[b], n - 1, m - 1);
    }
  }

  /** Number of links after `b` on a well-formed chain. */
  ghost function ChainSteps(fat: seq<int>, b: int): (n: nat)
    requires WellFormedChain(fat, b)
    ensures ChainOfLength(fat, b, n)
  {
    var n: nat :| ChainOfLength(fat, b, n); n
  }

  /** The successor of a non-final block is one link shorter. */
  lemma SuccessorChain(fat: seq<int>, b: int)
    requires WellFormedChain(fat, b) && fat[b] != ENDOFCHAIN
    ensures WellFormedChain(fat, fat[b])
    ensures ChainSteps(fat, fat[b]) == ChainSteps(fat, b) - 1
  {
    var n := ChainSteps(fat, b);
    assert ChainOfLength(fat, fat[b], n - 1);
    ChainLengthUnique(fat, fat[b], n - 1, ChainSteps(fat, fat[b]));
  }

  /** The blocks of a chain of `n` links, in order. */
  function ChainBlocks(fat: seq<int>, b: int, n: nat): (c: seq<int>)
    requires ChainOfLength(fat, b, n)
    decreases n
    ensures |c| == n + 1 && c[0] == b
    ensures forall i :: 0 <= i < |c| ==> 0 <= c[i] < |fat| && fat[c[i]] != UNUSED
    ensures forall i :: 0 <= i < n ==> fat[c[i]] == c[i + 1] && fat[c[i]] != ENDOFCHAIN
    ensures fat[c[n]] == ENDOFCHAIN
  {
    if n == 0 then [b] else [b] + ChainBlocks(fat, fat[b], n - 1)
  }

  /** The block `i` links down a chain heads a chain `i` links shorter. */
  lemma {:induction false} ChainSuffix(fat: seq<int>, b: int, n: nat, i: nat)
    requires ChainOfLength(fat, b, n) && i <= n
    ensures ChainOfLength(fat, ChainBlocks(fat, b, n)[i], n - i)
    decreases i
  {
    if i > 0 {
      ChainSuffix(fat, fat[b], n - 1, i - 1);
      assert ChainBlocks(fat, b, n)[i] == ChainBlocks(fat, fat[b], n - 1)[i - 1];
    }
  }

  /** No block repeats along a chain: a chain that ends has no cycle. */
  lemma ChainAcyclic(fat: seq<int>, b: int, n: nat)
    requires ChainOfLength(fat, b, n)
    ensures forall i, j :: 0 <= i < j <= n ==> ChainBlocks(fat, b, n)[i] != ChainBlocks(fat, b, n)[j]
  {
    var c := ChainBlocks(fat, b, n);
    forall i, j | 0 <= i < j <= n
      ensures c[i] != c[j]
    {
      ChainSuffix(fat, b, n, i);
      ChainSuffix(fat, b, n, j);
      if c[i] == c[j] {
        ChainLengthUnique(fat, c[i], n - i, n - j);
      }
    }
  }

  /** A sequence of distinct values drawn from [0, bound) has at most `bound` elements. */
  lemma {:induction false} DistinctBounded(s: seq<int>, bound: nat)
    requires forall i :: 0 <= i < |s| ==> 0 <= s[i] < bound
    requires forall i, j :: 0 <= i < j < |s| ==> s[i] != s[j]
    ensures |s| <= bound
    decreases bound
  {
    if |s| > 0 {
      var x := s[0];
      var rest := seq(|s| - 1, i requires 0 <= i < |s| - 1 => if s[i + 1] > x then s[i + 1] - 1 else s[i + 1]);
      forall i, j | 0 <= i < j < |rest|
        ensures rest[i] != rest[j]
      {
        assert s[i + 1] != s[j + 1] && s[i + 1] != x && s[j + 1] != x;
      }
      DistinctBounded(rest, bound - 1);
    }
  }

  /** A chain visits at most MAXBLOCKS blocks, so it ends within that many steps. */
  lemma ChainFitsDisk(fat: seq<int>, b: int, n: nat)
    requires ChainOfLength(fat, b, n)
    ensures n < |fat|
  {
    ChainAcyclic(fat, b, n);
    DistinctBounded(ChainBlocks(fat, b, n), |fat|);
  }

  /** The last block of a well-formed chain: the loop in the source's append
      branch, which follows links until an end-of-chain entry. */
  function ChainTail(fat: seq<int>, b: int): (t: int)
    requires WellFormedChain(fat, b)
    decreases ChainSteps(fat, b)
    ensures 0 <= t < |fat| && fat[t] == ENDOFCHAIN
    ensures t == ChainBlocks(fat, b, ChainSteps(fat, b))[ChainSteps(fat, b)]
  {
    if fat[b] == ENDOFCHAIN then
      b
    else
      SuccessorChain(fat, b);
      ChainTail(fat, fat[b])
  }

  /** Blocks on a well-formed chain, counted by following links from `b`
      until an end-of-chain entry (the loop of file_block_length). */
  function BlockCount(fat: seq<int>, b: int): (k: nat)
    requires WellFormedChain(fat, b)
    decreases ChainSteps(fat, b)
    ensures k >= 1 && ChainOfLength(fat, b, k - 1)
  {
    if fat[b] == ENDOFCHAIN then
      1
    else
      SuccessorChain(fat, b);
      1 + BlockCount(fat, fat[b])
  }

  /** Follow links from `b` until an end-of-chain entry, taking at most `fuel`
      links. None when a link is free (the source would then index the table
      at -1) or the fuel runs out (the source would loop for ever). */
  function Follow(fat: seq<int>, b: int, fuel: nat): (r: Option<int>)
    requires TableOk(fat) && 0 <= b < MAXBLOCKS
    decreases fuel
    ensures r.Some? ==> WellFormedChain(fat, b) && r.value == ChainTail(fat, b)
  {
    if fat[b] == ENDOFCHAIN then
      assert ChainOfLength(fat, b, 0);
      Some(b)
    else if fat[b] == UNUSED || fuel == 0 then
      None
    else
      var r := Follow(fat, fat[b], fuel - 1);
      if r.Some? then
        assert ChainOfLength(fat, b, ChainSteps(fat, fat[b]) + 1);
        SuccessorChain(fat, b);
        r
      else
        r
  }

  /** Following a chain of `n` links with at least `n` fuel reaches its tail. */
  lemma {:induction false} FollowComplete(fat: seq<int>, b: int, n: nat, fuel: nat)
    requires TableOk(fat) && ChainOfLength(fat, b, n) && n <= fuel
    ensures Follow(fat, b, fuel) == Some(ChainTail(fat, b))
    decreases n
  {
    if n > 0 {
      FollowComplete(fat, fat[b], n - 1, fuel - 1);
    }
  }

  /** With MAXBLOCKS fuel, following succeeds exactly on well-formed chains:
      the fuel bound loses nothing. */
  lemma FollowDecides(fat: seq<int>, b: int)
    requires TableOk(fat) && 0 <= b < MAXBLOCKS
    ensures Follow(fat, b, MAXBLOCKS).Some? <==> WellFormedChain(fat, b)
  {
    if WellFormedChain(fat, b) {
      var n := ChainSteps(fat, b);
      ChainFitsDisk(fat, b, n);
      FollowComplete(fat, b, n, MAXBLOCKS);
    }
  }
}
