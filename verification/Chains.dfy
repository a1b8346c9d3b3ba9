/** Cluster chains in a file allocation table. */
module Chains {
  import opened Bytes
  import opened Volumes

  /** The entry a chain member must hold. */
  function Link(ch: seq<nat>, i: nat): nat
    requires i < |ch|
  {
    if i + 1 < |ch| then ch[i + 1] else CLUSTER_EOF
  }

  /** `ch` is a complete chain: every member links to the next one, the last one holds the end mark. */
  ghost predicate IsChain(fat: seq<Word>, limit: nat, ch: seq<nat>) {
    && limit <= |fat| && limit <= 0x8000
    && 0 < |ch|
    && (forall i :: 0 <= i < |ch| ==> FIRST_CLUSTER <= ch[i] < limit)
    && (forall i :: 0 <= i < |ch| ==> fat[ch[i]] == Link(ch, i))
  }

  /** The clusters met by following links from `c`, at most `fuel` of them. */
  function ChainFrom(fat: seq<Word>, limit: nat, c: nat, fuel: nat): seq<nat>
    requires limit <= |fat|
    decreases fuel
  {
    if fuel == 0 || c < FIRST_CLUSTER || limit <= c then [] else [c] + ChainFrom(fat, limit, fat[c], fuel - 1)
  }

  /** A complete chain never repeats a cluster. */
  lemma {:induction false} ChainDistinct(fat: seq<Word>, limit: nat, ch: seq<nat>, i: nat, j: nat)
    requires IsChain(fat, limit, ch) && i < j < |ch|
    ensures ch[i] != ch[j]
    decreases |ch| - j
  {
    if ch[i] == ch[j] {
      assert Link(ch, i) == Link(ch, j);
      if j + 1 < |ch| {
        ChainDistinct(fat, limit, ch, i + 1, j + 1);
      }
    }
  }

  function Elements(ch: seq<nat>): set<nat> {
    set c | c in ch
  }

  function Below(n: nat): (s: set<nat>)
    ensures |s| == n
    ensures forall c: nat :: c in s <==> c < n
  {
    if n == 0 then {} else Below(n - 1) + {n - 1}
  }

  lemma {:induction false} ElementsCount(ch: seq<nat>)
    requires forall i, j :: 0 <= i < j < |ch| ==> ch[i] != ch[j]
    ensures |Elements(ch)| == |ch|
  {
    if ch != [] {
      var init := ch[..|ch| - 1];
      ElementsCount(init);
      assert Elements(ch) == Elements(init) + {ch[|ch| - 1]};
    }
  }

  lemma SubsetCount(a: set<nat>, b: set<nat>)
    requires a <= b
    ensures |a| <= |b|
  {
    assert b == a + (b - a);
  }

  lemma ChainShort(fat: seq<Word>, limit: nat, ch: seq<nat>)
    requires IsChain(fat, limit, ch)
    ensures |ch| <= limit
  {
    forall i, j | 0 <= i < j < |ch| ensures ch[i] != ch[j] {
      ChainDistinct(fat, limit, ch, i, j);
    }
    ElementsCount(ch);
    SubsetCount(Elements(ch), Below(limit));
  }

  lemma {:induction false} ChainFromSuffix(fat: seq<Word>, limit: nat, ch: seq<nat>, i: nat, fuel: nat)
    requires IsChain(fat, limit, ch) && i < |ch| && |ch| - i <= fuel
    ensures ChainFrom(fat, limit, ch[i], fuel) == ch[i..]
    decreases fuel
  {
    assert fat[ch[i]] == Link(ch, i);
    if i + 1 < |ch| {
      ChainFromSuffix(fat, limit, ch, i + 1, fuel - 1);
    }
  }

  /** Following links from the head of a complete chain yields that chain, so it is the only one. */
  lemma ChainFound(fat: seq<Word>, limit: nat, ch: seq<nat>)
    requires IsChain(fat, limit, ch)
    ensures ChainFrom(fat, limit, ch[0], limit) == ch
  {
    ChainShort(fat, limit, ch);
    ChainFromSuffix(fat, limit, ch, 0, limit);
  }

  /** A chain depends only on its own entries. */
  lemma ChainFrame(fat: seq<Word>, fat': seq<Word>, limit: nat, ch: seq<nat>)
    requires IsChain(fat, limit, ch) && limit <= |fat'|
    requires forall i :: 0 <= i < |ch| ==> fat'[ch[i]] == fat[ch[i]]
    ensures IsChain(fat', limit, ch)
    ensures ChainFrom(fat', limit, ch[0], limit) == ch
  {
    ChainFound(fat', limit, ch);
  }

  /** Linking a free cluster to the last one makes the chain one longer. */
  lemma ChainExtend(fat: seq<Word>, limit: nat, ch: seq<nat>, n: Word)
    requires IsChain(fat, limit, ch) && FIRST_CLUSTER <= n < limit && fat[n] == CLUSTER_FREE
    ensures n !in ch
    ensures var fat' := fat[ch[|ch| - 1] := n][n := CLUSTER_EOF];
            IsChain(fat', limit, ch + [n]) && ChainFrom(fat', limit, ch[0], limit) == ch + [n]
  {
    var fat' := fat[ch[|ch| - 1] := n][n := CLUSTER_EOF];
    var ch' := ch + [n];
    assert n !in ch;
    forall i | 0 <= i < |ch'| ensures fat'[ch'[i]] == Link(ch', i) {
      if i < |ch| - 1 {
        ChainDistinct(fat, limit, ch, i, |ch| - 1);
        assert fat[ch[i]] == Link(ch, i);
      }
    }
    ChainFound(fat', limit, ch');
  }

  /** A fresh cluster marked as the end is a chain by itself. */
  lemma ChainStart(fat: seq<Word>, limit: nat, n: nat)
    requires limit <= |fat| && limit <= 0x8000 && FIRST_CLUSTER <= n < limit
    ensures var fat' := fat[n := CLUSTER_EOF];
            IsChain(fat', limit, [n]) && ChainFrom(fat', limit, n, limit) == [n]
  {
    ChainFound(fat[n := CLUSTER_EOF], limit, [n]);
  }

  // ----- Searching for a free cluster -----

  /** The least free entry from `c` on, or the size of the table. */
  function LeastFree(fat: seq<Word>, c: nat): (r: nat)
    requires c <= |fat|
    ensures c <= r <= |fat|
    ensures r < |fat| ==> fat[r] == CLUSTER_FREE
    ensures forall i :: c <= i < r ==> fat[i] != CLUSTER_FREE
    decreases |fat| - c
  {
    if c == |fat| || fat[c] == CLUSTER_FREE then c else LeastFree(fat, c + 1)
  }

  lemma LeastFreeUnique(fat: seq<Word>, c: nat, r: nat)
    requires c <= r <= |fat|
    requires r < |fat| ==> fat[r] == CLUSTER_FREE
    requires forall i :: c <= i < r ==> fat[i] != CLUSTER_FREE
    ensures LeastFree(fat, c) == r
  {
  }

  /** How many of the clusters from 2 up to, not including, `n` are free. */
  function FreeBelow(fat: seq<Word>, n: nat): nat
    requires n <= |fat|
  {
    if n <= FIRST_CLUSTER then 0
    else FreeBelow(fat, n - 1) + if fat[n - 1] == CLUSTER_FREE then 1 else 0
  }

  lemma {:induction false} FreeExists(fat: seq<Word>, n: nat)
    requires n <= |fat| && FIRST_CLUSTER <= |fat|
    ensures 0 < FreeBelow(fat, n) <==> LeastFree(fat, FIRST_CLUSTER) < n
    decreases n
  {
    if FIRST_CLUSTER < n {
      FreeExists(fat, n - 1);
    }
  }

  /** Changing one entry changes the count by what that entry contributes. */
  lemma {:induction false} FreeUpdate(fat: seq<Word>, n: nat, c: nat, w: Word)
    requires n <= |fat| && FIRST_CLUSTER <= c < |fat|
    ensures FreeBelow(fat[c := w], n)
            == FreeBelow(fat, n)
               + (if c < n && w == CLUSTER_FREE then 1 else 0)
               - (if c < n && fat[c] == CLUSTER_FREE then 1 else 0)
  {
    if FIRST_CLUSTER < n {
      FreeUpdate(fat, n - 1, c, w);
    }
  }
}
