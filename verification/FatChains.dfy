// Cluster chains of an allocation table, as pure functions of the table's 28-bit entries:
// what a chain is, what the next-fit search finds, and what freeing a chain leaves behind.
module FatChains {
  import opened Machine
  import opened FatDisk

  type Entries = seq<nat>

  const LAST_MIN: nat := 0x0fff_fff8

  /** The flags that get_fat returns for an entry, with Broken for an error. */
  datatype Kind = Free | Used | Last | Bad | Broken

  function Classify(v: nat, clustCnt: nat): Kind {
    if v == 0 then Free
    else if v == BAD then Bad
    else if v >= LAST_MIN then Last
    else if 2 <= v < clustCnt then Used
    else Broken
  }

  ghost predicate EntriesOk(t: Entries) {
    |t| <= BAD && forall c :: 2 <= c < |t| ==> !Classify(t[c], |t|).Broken?
  }

  // ---- Chains

  predicate InTable(t: Entries, c: int) {
    2 <= c < |t|
  }

  predicate Linked(t: Entries, q: seq<nat>, i: nat) {
    i + 1 < |q| && InTable(t, q[i]) && t[q[i]] == q[i + 1]
  }

  /** q lists clusters that link to one another in order, and the last one carries an end mark. */
  ghost predicate IsChain(t: Entries, q: seq<nat>) {
    && |t| <= BAD
    && 0 < |q|
    && (forall i :: 0 <= i < |q| ==> InTable(t, q[i]))
    && (forall i :: 0 <= i < |q| - 1 ==> Linked(t, q, i))
    && t[q[|q| - 1]] >= LAST_MIN
  }

  /** A chain has no cycle: an end mark can only be reached once. */
  lemma {:induction false} ChainDistinct(t: Entries, q: seq<nat>, i: nat, j: nat)
    requires IsChain(t, q) && i < j < |q|
    ensures q[i] != q[j]
    decreases |q| - j
  {
    assert Linked(t, q, i);
    assert j + 1 < |q| ==> Linked(t, q, j);
    if q[i] == q[j] && j + 1 < |q| {
      ChainDistinct(t, q, i + 1, j + 1);
    }
  }

  lemma ChainHasNoDuplicates(t: Entries, q: seq<nat>)
    requires IsChain(t, q)
    ensures forall i, j :: 0 <= i < |q| && 0 <= j < |q| && q[i] == q[j] ==> i == j
  {
    forall i, j | 0 <= i < j < |q|
      ensures q[i] != q[j]
    {
      ChainDistinct(t, q, i, j);
    }
  }

  /** What get_fat reports along a chain: a link to the next cluster, and an end mark at the end. */
  lemma ChainStep(t: Entries, q: seq<nat>, j: nat)
    requires IsChain(t, q) && j < |q|
    ensures InTable(t, q[j]) && t[q[j]] != 0
    ensures Classify(t[q[j]], |t|) == if j + 1 < |q| then Used else Last
    ensures j + 1 < |q| ==> t[q[j]] == q[j + 1]
  {
    assert j + 1 < |q| ==> Linked(t, q, j);
  }

  /** The chain that starts at a cluster is determined by the table. */
  lemma {:induction false} ChainIsUnique(t: Entries, q: seq<nat>, r: seq<nat>)
    requires IsChain(t, q) && IsChain(t, r) && q[0] == r[0]
    ensures q == r
    decreases |q|
  {
    assert |q| > 1 ==> Linked(t, q, 0);
    assert |r| > 1 ==> Linked(t, r, 0);
    if |q| > 1 && |r| > 1 {
      ChainTail(t, q);
      ChainTail(t, r);
      ChainIsUnique(t, q[1..], r[1..]);
      assert q == [q[0]] + q[1..] && r == [r[0]] + r[1..];
    }
  }

  lemma ChainTail(t: Entries, q: seq<nat>)
    requires IsChain(t, q) && 1 < |q|
    ensures IsChain(t, q[1..])
  {
    var r := q[1..];
    forall i | 0 <= i < |r| - 1
      ensures Linked(t, r, i)
    {
      assert Linked(t, q, i + 1);
    }
  }

  /** A chain only depends on its own entries. */
  lemma ChainFrame(t: Entries, u: Entries, q: seq<nat>)
    requires IsChain(t, q) && |u| == |t|
    requires forall i :: 0 <= i < |q| ==> u[q[i]] == t[q[i]]
    ensures IsChain(u, q)
  {
    forall i | 0 <= i < |q| - 1
      ensures Linked(u, q, i)
    {
      assert Linked(t, q, i);
    }
  }

  lemma ChainExtended(t: Entries, q: seq<nat>, c: nat)
    requires IsChain(t, q) && InTable(t, c) && t[c] == 0
    ensures IsChain(t[c := EOC][q[|q| - 1] := c], q + [c])
  {
    var last := q[|q| - 1];
    var u, r := t[c := EOC][last := c], q + [c];
    ChainHasNoDuplicates(t, q);
    forall i | 0 <= i < |r| - 1
      ensures Linked(u, r, i)
    {
      if i + 1 < |q| {
        assert Linked(t, q, i);
      }
    }
  }

  // ---- All chains of a volume

  /** Maps the first cluster of every file and directory to its whole chain. */
  type Chains = map<nat, seq<nat>>

  ghost predicate Disjoint(q: seq<nat>, r: seq<nat>) {
    forall c :: c in q ==> c !in r
  }

  ghost predicate ChainsOk(t: Entries, m: Chains) {
    && (forall h :: h in m ==> IsChain(t, m[h]) && m[h][0] == h)
    && (forall h, k :: h in m && k in m && h != k ==> Disjoint(m[h], m[k]))
  }

  /** Every cluster in use, other than a bad one, is part of some chain. */
  ghost predicate NothingLost(t: Entries, m: Chains) {
    forall c {:trigger Owned(m, c)} :: InTable(t, c) && t[c] != 0 && t[c] != BAD ==> Owned(m, c)
  }

  ghost predicate Owned(m: Chains, c: nat) {
    exists h :: h in m && c in m[h]
  }

  /** Clusters stay owned when no chain shrinks. */
  lemma OwnedGrows(m: Chains, n: Chains, c: nat)
    requires Owned(m, c)
    requires forall h :: h in m ==> h in n && m[h] <= n[h]
    ensures Owned(n, c)
  {
    var h :| h in m && c in m[h];
    var i :| 0 <= i < |m[h]| && m[h][i] == c;
    assert n[h][i] == c;
    assert h in n && c in n[h];
  }

  /** The chains are acyclic, pairwise disjoint, end-marked, and account for every used cluster. */
  ghost predicate Sound(t: Entries, m: Chains) {
    EntriesOk(t) && ChainsOk(t, m) && NothingLost(t, m)
  }

  lemma ChainEntriesUsed(t: Entries, q: seq<nat>, c: nat)
    requires IsChain(t, q) && c in q
    ensures InTable(t, c) && t[c] != 0 && t[c] != BAD
  {
    var i :| 0 <= i < |q| && q[i] == c;
    assert i + 1 < |q| ==> Linked(t, q, i);
  }

  /** Changing free entries or entries outside the chains leaves the other chains as they are. */
  lemma FreeIsInNoChain(t: Entries, m: Chains, c: nat)
    requires ChainsOk(t, m) && InTable(t, c) && t[c] == 0
    ensures forall k :: k in m ==> c !in m[k]
  {
    forall k | k in m && c in m[k]
      ensures false
    {
      ChainEntriesUsed(t, m[k], c);
    }
  }

  lemma StretchKeepsChainsOk(t: Entries, m: Chains, h: nat, c: nat)
    requires ChainsOk(t, m) && h in m && InTable(t, c) && t[c] == 0
    ensures ChainsOk(t[c := EOC][m[h][|m[h]| - 1] := c], m[h := m[h] + [c]])
  {
    var q := m[h];
    var last := q[|q| - 1];
    var u, n := t[c := EOC][last := c], m[h := q + [c]];
    ChainExtended(t, q, c);
    FreeIsInNoChain(t, m, c);
    forall k | k in m && k != h
      ensures IsChain(u, m[k]) && Disjoint(n[h], n[k]) && Disjoint(n[k], n[h])
    {
      assert last in q && last !in m[k];
      ChainFrame(t, u, m[k]);
    }
  }

  lemma StretchLosesNothing(t: Entries, m: Chains, h: nat, c: nat)
    requires ChainsOk(t, m) && NothingLost(t, m) && h in m && InTable(t, c)
    ensures NothingLost(t[c := EOC][m[h][|m[h]| - 1] := c], m[h := m[h] + [c]])
  {
    var q := m[h];
    var last := q[|q| - 1];
    var u, n := t[c := EOC][last := c], m[h := q + [c]];
    forall d | InTable(u, d) && u[d] != 0 && u[d] != BAD
      ensures Owned(n, d)
    {
      if d == c || d == last {
        assert h in n && c in n[h] && last in n[h];
      } else {
        OwnedGrows(m, n, d);
      }
    }
  }

  lemma StretchKeepsSound(t: Entries, m: Chains, h: nat, c: nat)
    requires Sound(t, m) && h in m && InTable(t, c) && t[c] == 0
    ensures Sound(t[c := EOC][m[h][|m[h]| - 1] := c], m[h := m[h] + [c]])
  {
    StretchKeepsChainsOk(t, m, h, c);
    StretchLosesNothing(t, m, h, c);
  }

  lemma CreateKeepsChainsOk(t: Entries, m: Chains, c: nat)
    requires |t| <= BAD && ChainsOk(t, m) && InTable(t, c) && t[c] == 0
    ensures c !in m && ChainsOk(t[c := EOC], m[c := [c]])
  {
    var u := t[c := EOC];
    assert forall k :: k in m ==> m[k][0] in m[k];
    FreeIsInNoChain(t, m, c);
    forall k | k in m
      ensures IsChain(u, m[k]) && Disjoint([c], m[k]) && Disjoint(m[k], [c])
    {
      ChainFrame(t, u, m[k]);
    }
    var q := [c];
    assert q[0] == c && u[c] == EOC;
    assert IsChain(u, q);
  }

  lemma CreateKeepsSound(t: Entries, m: Chains, c: nat)
    requires Sound(t, m) && InTable(t, c) && t[c] == 0
    ensures c !in m && Sound(t[c := EOC], m[c := [c]])
  {
    CreateKeepsChainsOk(t, m, c);
    var u, n := t[c := EOC], m[c := [c]];
    forall d | InTable(u, d) && u[d] != 0 && u[d] != BAD
      ensures Owned(n, d)
    {
      if d == c {
        OwnedBy(n, c, d);
      } else {
        OwnedGrows(m, n, d);
      }
    }
  }

  lemma OwnedBy(m: Chains, h: nat, c: nat)
    requires h in m && c in m[h]
    ensures Owned(m, c)
  {
  }

  /** The table with the entries of q set to zero. */
  function Zeroed(t: Entries, q: seq<nat>): (u: Entries)
    ensures |u| == |t|
  {
    seq(|t|, c requires 0 <= c < |t| => if c in q then 0 else t[c])
  }

  lemma RemoveKeepsChainsOk(t: Entries, m: Chains, h: nat)
    requires ChainsOk(t, m) && h in m
    ensures ChainsOk(Zeroed(t, m[h]), m - {h})
  {
    forall k | k in m && k != h
      ensures IsChain(Zeroed(t, m[h]), m[k])
    {
      assert Disjoint(m[k], m[h]);
      assert forall i :: 0 <= i < |m[k]| ==> m[k][i] in m[k];
      ChainFrame(t, Zeroed(t, m[h]), m[k]);
    }
  }

  lemma RemoveKeepsSound(t: Entries, m: Chains, h: nat)
    requires Sound(t, m) && h in m
    ensures Sound(Zeroed(t, m[h]), m - {h})
  {
    RemoveKeepsChainsOk(t, m, h);
    var u, n := Zeroed(t, m[h]), m - {h};
    forall d | InTable(u, d) && u[d] != 0 && u[d] != BAD
      ensures Owned(n, d)
    {
      assert Owned(m, d);
      var k :| k in m && d in m[k];
      OwnedBy(n, k, d);
    }
  }

  // ---- Counting free entries

  function FreeSet(t: Entries): set<nat> {
    set c: nat | c < |t| && t[c] == 0
  }

  function FreeCount(t: Entries): (n: nat)
    ensures n <= |t|
  {
    FreeCountBound(t);
    |FreeSet(t)|
  }

  function Range(n: nat): (s: set<nat>)
    ensures |s| == n
    ensures forall c :: c in s <==> 0 <= c < n
  {
    if n == 0 then {} else Range(n - 1) + {n - 1}
  }

  lemma SubsetSize<T>(a: set<T>, b: set<T>)
    requires a <= b
    ensures |a| <= |b|
  {
    assert b == a + (b - a);
  }

  lemma FreeCountBound(t: Entries)
    ensures |FreeSet(t)| <= |t|
  {
    SubsetSize(FreeSet(t), Range(|t|));
  }

  lemma FreeCountUpdate(t: Entries, c: nat, v: nat)
    requires c < |t|
    ensures FreeCount(t[c := v]) == FreeCount(t) - (if t[c] == 0 then 1 else 0) + (if v == 0 then 1 else 0)
  {
    var others := FreeSet(t) - {c};
    assert FreeSet(t) == if t[c] == 0 then others + {c} else others;
    assert FreeSet(t[c := v]) == if v == 0 then others + {c} else others;
  }

  // ---- Freeing a chain

  datatype Freed = Freed(t: Entries, count: nat, ok: bool)

  /** What remove_chain does to any table, well formed or not, from any entry. */
  function FreeWalk(t: Entries, c: nat): (r: Freed)
    requires c < |t|
    ensures |r.t| == |t|
    decreases |t| - FreeCount(t)
  {
    match Classify(t[c], |t|)
    case Last => Freed(t[c := 0], 1, true)
    case Used =>
      FreeCountUpdate(t, c, 0);
      FreeCountBound(t[c := 0]);
      var r := FreeWalk(t[c := 0], t[c]);
      r.(count := r.count + 1)
    case _ => Freed(t, 0, false)
  }

  /** Each cluster freed turns one used entry into a free one, whatever the outcome. */
  lemma {:induction false} FreeWalkCounts(t: Entries, c: nat)
    requires c < |t|
    ensures var r := FreeWalk(t, c); FreeCount(r.t) == FreeCount(t) + r.count
    decreases |t| - FreeCount(t)
  {
    FreeCountUpdate(t, c, 0);
    FreeCountBound(t[c := 0]);
    if Classify(t[c], |t|).Used? {
      FreeWalkCounts(t[c := 0], t[c]);
    }
  }

  /** On a chain the walk frees exactly that chain. */
  lemma {:induction false} FreeWalkOfChain(t: Entries, q: seq<nat>)
    requires IsChain(t, q)
    ensures FreeWalk(t, q[0]) == Freed(Zeroed(t, q), |q|, true)
    decreases |q|
  {
    var c := q[0];
    if |q| == 1 {
      assert Zeroed(t, q) == t[c := 0];
    } else {
      assert Linked(t, q, 0);
      var u, r := t[c := 0], q[1..];
      ChainTail(t, q);
      ChainHasNoDuplicates(t, q);
      ChainFrame(t, u, r);
      FreeWalkOfChain(u, r);
      assert q == [c] + r;
      assert Zeroed(u, r) == Zeroed(t, q);
    }
  }

  /** The clusters a successful walk frees form a chain. */
  lemma {:induction false} FreeWalkFindsChain(t: Entries, c: nat) returns (q: seq<nat>)
    requires InTable(t, c) && |t| <= BAD && FreeWalk(t, c).ok
    ensures IsChain(t, q) && q[0] == c
    decreases |t| - FreeCount(t)
  {
    if Classify(t[c], |t|).Last? {
      q := [c];
    } else {
      FreeCountUpdate(t, c, 0);
      FreeCountBound(t[c := 0]);
      var r := FreeWalkFindsChain(t[c := 0], t[c]);
      forall i | 0 <= i < |r|
        ensures r[i] != c
      {
        assert r[i] in r;
        ChainEntriesUsed(t[c := 0], r, r[i]);
      }
      ChainFrame(t[c := 0], t, r);
      q := [c] + r;
      forall i | 0 <= i < |q| - 1
        ensures Linked(t, q, i)
      {
        assert i > 0 ==> Linked(t, r, i - 1);
      }
    }
  }

  /** remove_chain reports success exactly when its argument starts a chain. */
  lemma FreeWalkSucceedsIff(t: Entries, c: nat)
    requires InTable(t, c) && |t| <= BAD
    ensures FreeWalk(t, c).ok <==> exists q :: IsChain(t, q) && q[0] == c
  {
    if FreeWalk(t, c).ok {
      var q := FreeWalkFindsChain(t, c);
    }
    if q :| IsChain(t, q) && q[0] == c {
      FreeWalkOfChain(t, q);
    }
  }

  // ---- Finding a free cluster

  function After(n: nat, c: nat): nat {
    if c + 1 >= n then 2 else c + 1
  }

  /** How many increments, wrapping from n - 1 to 2, lead from a to b; between 1 and n - 2. */
  function Steps(n: nat, a: nat, b: nat): (s: nat)
    requires 2 <= a < n && 2 <= b < n
    ensures 1 <= s <= n - 2
  {
    if a < b then b - a else b - a + (n - 2)
  }

  lemma StepsOfAfter(n: nat, a: nat, b: nat)
    requires 2 <= a < n && 2 <= b < n && After(n, b) != a
    ensures Steps(n, a, After(n, b)) == (if b == a then 0 else Steps(n, a, b)) + 1
  {
  }

  lemma StepsToLast(n: nat, a: nat, b: nat)
    requires 2 <= a < n && 2 <= b < n && After(n, b) == a
    ensures forall d :: 2 <= d < n && d != a ==> Steps(n, a, d) <= if b == a then 0 else Steps(n, a, b)
  {
  }

  /** No cluster other than lastUsed is free, nor is the one after prev. */
  ghost predicate Exhausted(t: Entries, lastUsed: nat, prev: nat) {
    && (forall d :: InTable(t, d) && d != lastUsed ==> t[d] != 0)
    && (prev != 0 && prev < |t| && 2 < |t| ==> t[After(|t|, prev)] != 0)
  }

  /** c is the neighbour of prev if that is free, and otherwise the free cluster nearest after lastUsed. */
  ghost predicate NextFit(t: Entries, lastUsed: nat, prev: nat, c: nat)
    requires InTable(t, lastUsed) && prev < |t|
  {
    && InTable(t, c) && t[c] == 0
    && if prev != 0 && t[After(|t|, prev)] == 0 then c == After(|t|, prev)
       else c != lastUsed && forall d :: InTable(t, d) && Steps(|t|, lastUsed, d) < Steps(|t|, lastUsed, c) ==> t[d] != 0
  }

  // ---- The search on any table, from any last_used

  /** How the search for a free cluster ends: BadEntry means a malformed entry met by the scan, Endless that it never does. */
  datatype Search = Found | Full | BadNeighbour | BadEntry | Endless

  /** A scan stops at a free or a malformed entry. */
  ghost predicate Stops(t: Entries, d: nat) {
    d < |t| && (t[d] == 0 || Classify(t[d], |t|).Broken?)
  }

  /** The entries a scan comes to before it meets last again, which it does not do if last is no data cluster. */
  predicate Scanned(n: nat, last: nat, d: nat) {
    d < n && if 2 <= last < n then 2 <= d && d != last else (if last == 0 then 1 else 2) <= d
  }

  /** The order in which the scan comes to them. */
  function Rank(n: nat, last: nat, d: nat): nat {
    if 2 <= last < n && 2 <= d < n then Steps(n, last, d) else d
  }

  ghost predicate NoStopBefore(t: Entries, last: nat, k: nat) {
    forall d: nat :: Scanned(|t|, last, d) && Rank(|t|, last, d) < k ==> !Stops(t, d)
  }

  ghost predicate FirstStop(t: Entries, last: nat, d: nat) {
    Scanned(|t|, last, d) && Stops(t, d) && NoStopBefore(t, last, Rank(|t|, last, d))
  }

  ghost predicate NoStop(t: Entries, last: nat) {
    forall d: nat :: Scanned(|t|, last, d) ==> !Stops(t, d)
  }

  /** What the search comes to: the neighbour of prev decides, and if that is in use the first entry at which the scan stops. */
  ghost predicate Searched(t: Entries, last: nat, prev: nat, r: Search, c: nat)
    requires 2 < |t|
  {
    var next := After(|t|, prev);
    if prev != 0 && t[next] == 0 then r.Found? && c == next
    else if prev != 0 && Classify(t[next], |t|).Broken? then r.BadNeighbour?
    else if NoStop(t, last) then r == if InTable(t, last) then Full else Endless
    else FirstStop(t, last, c) && r == if t[c] == 0 then Found else BadEntry
  }

  /** One step of the scan: back at last everything has been seen, and otherwise the entry is the next in order. */
  lemma ScanOn(n: nat, last: nat, c: nat)
    requires 2 < n && (c == last || Scanned(n, last, c)) && (c == last || c + 1 < n || 2 <= last < n)
    ensures After(n, c) == last ==> 2 <= last < n
    ensures var d, seen := After(n, c), if c == last then 0 else Rank(n, last, c);
      if d == last then forall e: nat :: Scanned(n, last, e) ==> Rank(n, last, e) <= seen
      else
        && Scanned(n, last, d) && seen < Rank(n, last, d) <= n
        && forall e: nat :: Scanned(n, last, e) && Rank(n, last, e) < Rank(n, last, d) ==> Rank(n, last, e) <= seen
  {
    if 2 <= last < n {
      if After(n, c) == last {
        StepsToLast(n, last, c);
      } else {
        StepsOfAfter(n, last, c);
      }
    }
  }

  lemma NothingSeen(t: Entries, last: nat)
    ensures NoStopBefore(t, last, 1)
  {
  }

  /** At the end of the table a scan from outside the data clusters has seen all of it. */
  lemma WentRound(t: Entries, last: nat, c: nat)
    requires 2 < |t| && !InTable(t, last) && c + 1 >= |t| && NoStopBefore(t, last, Rank(|t|, last, c) + 1)
    ensures NoStop(t, last)
  {
  }

  /** Back at last, the scan has seen all entries but that one. */
  lemma CameBack(t: Entries, last: nat, c: nat)
    requires 2 < |t| && (c == last || Scanned(|t|, last, c)) && After(|t|, c) == last
    requires NoStopBefore(t, last, (if c == last then 0 else Rank(|t|, last, c)) + 1)
    ensures NoStop(t, last) && InTable(t, last)
  {
    ScanOn(|t|, last, c);
  }

  /** The next entry: no stop lies between, so a stop there is the first. */
  lemma ScanStep(t: Entries, last: nat, c: nat)
    requires 2 < |t| && (c == last || Scanned(|t|, last, c)) && (c == last || c + 1 < |t| || InTable(t, last)) && After(|t|, c) != last
    requires NoStopBefore(t, last, (if c == last then 0 else Rank(|t|, last, c)) + 1)
    ensures var d := After(|t|, c);
      && Scanned(|t|, last, d) && (if c == last then 0 else Rank(|t|, last, c)) < Rank(|t|, last, d) <= |t|
      && if Stops(t, d) then FirstStop(t, last, d) && !NoStop(t, last) else NoStopBefore(t, last, Rank(|t|, last, d) + 1)
  {
    hide Scanned, Stops;
    ScanOn(|t|, last, c);
    var d := After(|t|, c);
    forall e: nat | Scanned(|t|, last, e) && Rank(|t|, last, e) == Rank(|t|, last, d)
      ensures e == d
    {
      SameRank(|t|, last, d, e);
    }
  }

  lemma SameRank(n: nat, last: nat, d: nat, e: nat)
    requires Scanned(n, last, d) && Scanned(n, last, e) && Rank(n, last, d) == Rank(n, last, e)
    ensures d == e
  {
  }

  /** The search never ends exactly if last is no data cluster and every entry it looks at is well formed and in use. */
  lemma EndlessIff(t: Entries, last: nat, prev: nat, r: Search, c: nat)
    requires 2 < |t| && Searched(t, last, prev, r, c)
    ensures r.Endless? <==> !InTable(t, last) && NoStop(t, last) && (prev == 0 || !Stops(t, After(|t|, prev)))
  {
  }

  /** On a full volume whose hint is beyond the table no call of the search returns, where FULL is the answer otherwise. */
  lemma FullVolume(t: Entries, last: nat, prev: nat, r: Search, c: nat)
    requires EntriesOk(t) && 2 < |t| && last != 0 && prev < |t| && (forall d :: InTable(t, d) ==> t[d] != 0)
    requires Searched(t, last, prev, r, c)
    ensures r == if InTable(t, last) then Full else Endless
  {
    forall d: nat | Scanned(|t|, last, d)
      ensures !Stops(t, d)
    {
    }
  }

  /** On a well-formed table, with last among its clusters, the search fails exactly when exhausted and takes the next fit. */
  lemma WellFormedSearch(t: Entries, last: nat, prev: nat, r: Search, c: nat)
    requires EntriesOk(t) && InTable(t, last) && prev < |t| && Searched(t, last, prev, r, c)
    ensures r == if Exhausted(t, last, prev) then Full else Found
    ensures r.Found? ==> NextFit(t, last, prev, c)
  {
    forall d: nat | Scanned(|t|, last, d)
      ensures Stops(t, d) <==> t[d] == 0
    {
    }
    if r.Full? {
      forall d | InTable(t, d) && d != last
        ensures t[d] != 0
      {
        assert Scanned(|t|, last, d);
      }
    } else if !(prev != 0 && t[After(|t|, prev)] == 0) {
      forall d | InTable(t, d) && Steps(|t|, last, d) < Steps(|t|, last, c)
        ensures t[d] != 0
      {
        assert d != last ==> Scanned(|t|, last, d);
        assert Steps(|t|, last, last) == |t| - 2;
      }
    }
  }

  lemma NextFitIsFree(t: Entries, lastUsed: nat, prev: nat, c: nat)
    requires InTable(t, lastUsed) && prev < |t| && NextFit(t, lastUsed, prev, c)
    ensures InTable(t, c) && t[c] == 0
  {
  }

  /** The table after c has been end-marked and, unless prev is 0, linked behind prev. */
  function Stretched(t: Entries, prev: nat, c: nat): (u: Entries)
    requires prev < |t| && c < |t|
    ensures |u| == |t|
  {
    if prev == 0 then t[c := EOC] else t[c := EOC][prev := c]
  }

  /** FULL does not mean that no cluster is free: the search never looks at lastUsed itself. */
  lemma FullWithAFreeCluster()
    ensures exists t: Entries, lastUsed, prev ::
              |t| == 128 && EntriesOk(t) && InTable(t, lastUsed) && InTable(t, prev) && Exhausted(t, lastUsed, prev) && FreeCount(t) == 1
  {
    var t: Entries := seq(128, c => if c == 3 then 0 else EOC);
    assert FreeSet(t) == {3};
    assert EntriesOk(t) && InTable(t, 3) && InTable(t, 4) && Exhausted(t, 3, 4);
  }

  // ---- Growing one chain

  /** From t0 to t only the chain q0 has grown, to q, by clusters that were free; every other entry is as it was. */
  ghost predicate Grown(t0: Entries, q0: seq<nat>, t: Entries, q: seq<nat>) {
    && |t| == |t0| && EntriesOk(t) && IsChain(t, q) && q0 <= q
    && (forall i :: |q0| <= i < |q| ==> InTable(t0, q[i]) && t0[q[i]] == 0)
    && (forall c :: InTable(t0, c) && c !in q ==> t[c] == t0[c])
  }

  lemma GrownFromStart(t: Entries, q: seq<nat>)
    requires EntriesOk(t) && IsChain(t, q)
    ensures Grown(t, q, t, q)
  {
  }

  lemma GrownFacts(t0: Entries, q0: seq<nat>, t: Entries, q: seq<nat>)
    requires Grown(t0, q0, t, q)
    ensures EntriesOk(t) && IsChain(t, q) && q0 <= q
  {
  }

  lemma UsedStaysUsed(t0: Entries, q0: seq<nat>, t: Entries, q: seq<nat>, c: nat)
    requires Grown(t0, q0, t, q) && InTable(t, c) && t[c] == 0
    ensures t0[c] == 0
  {
    if c in q0 {
      var i :| 0 <= i < |q0| && q0[i] == c;
      assert q[i] == c;
      ChainEntriesUsed(t, q, c);
    }
  }

  lemma GrownTransitive(t0: Entries, q0: seq<nat>, t1: Entries, q1: seq<nat>, t2: Entries, q2: seq<nat>)
    requires IsChain(t0, q0) && Grown(t0, q0, t1, q1) && Grown(t1, q1, t2, q2)
    ensures Grown(t0, q0, t2, q2)
  {
    forall i | |q1| <= i < |q2|
      ensures t0[q2[i]] == 0
    {
      UsedStaysUsed(t0, q0, t1, q1, q2[i]);
    }
    forall c | InTable(t0, c) && c !in q2
      ensures t2[c] == t0[c]
    {
      assert c !in q1;
    }
  }

  lemma GrowByOne(t0: Entries, q0: seq<nat>, t: Entries, q: seq<nat>, c: nat)
    requires IsChain(t0, q0) && Grown(t0, q0, t, q) && InTable(t, c) && t[c] == 0
    ensures Grown(t0, q0, Stretched(t, q[|q| - 1], c), q + [c])
  {
    var last := q[|q| - 1];
    assert last in q && (last in q0 || t0[last] == 0);
    ChainExtended(t, q, c);
    UsedStaysUsed(t0, q0, t, q, c);
  }

  /** Chains that share nothing with the growing one survive, and still share nothing with it. */
  lemma GrownSparesOthers(t0: Entries, q0: seq<nat>, t: Entries, q: seq<nat>, r: seq<nat>)
    requires Grown(t0, q0, t, q) && IsChain(t0, r) && Disjoint(r, q0)
    ensures IsChain(t, r) && Disjoint(r, q)
  {
    forall c | c in r
      ensures InTable(t0, c) && t0[c] != 0 && c !in q0 && c !in q
    {
      ChainEntriesUsed(t0, r, c);
    }
    ChainFrame(t0, t, r);
  }

  /** The clusters that can still be allocated. */
  function FreeClusters(t: Entries): set<nat> {
    FreeSet(t) - {0, 1}
  }

  /** n clusters can be appended, one after the other, to a chain that ends in prev. */
  ghost predicate Room(t: Entries, lastUsed: nat, prev: nat, n: nat) {
    n == 0 || (!Exhausted(t, lastUsed, prev) && n <= |FreeClusters(t)|)
  }

  lemma RoomForNone(t: Entries, lastUsed: nat, prev: nat)
    ensures Room(t, lastUsed, prev, 0)
  {
  }

  lemma RoomForFewer(t: Entries, lastUsed: nat, prev: nat, n: nat, m: nat)
    requires Room(t, lastUsed, prev, n) && m <= n
    ensures Room(t, lastUsed, prev, m)
  {
  }

  lemma NoRoomWhenExhausted(t: Entries, lastUsed: nat, prev: nat, n: nat)
    requires Exhausted(t, lastUsed, prev) && 0 < n
    ensures !Room(t, lastUsed, prev, n)
  {
  }

  /** FULL is reported exactly when no cluster is free, or only lastUsed is and prev is not its neighbour. */
  lemma ExhaustedIff(t: Entries, lastUsed: nat, prev: nat)
    requires InTable(t, lastUsed) && InTable(t, prev)
    ensures Exhausted(t, lastUsed, prev) <==>
            FreeClusters(t) == {} || (FreeClusters(t) == {lastUsed} && After(|t|, prev) != lastUsed)
  {
    if Exhausted(t, lastUsed, prev) {
      assert FreeClusters(t) <= {lastUsed};
      if FreeClusters(t) != {} {
        var c :| c in FreeClusters(t);
        assert FreeClusters(t) == {lastUsed};
      }
    } else if !(forall d :: InTable(t, d) && d != lastUsed ==> t[d] != 0) {
      var d :| InTable(t, d) && d != lastUsed && t[d] == 0;
      assert d in FreeClusters(t);
    } else {
      assert After(|t|, prev) in FreeClusters(t);
    }
  }

  /** A file can grow by n clusters exactly when that many are free and one can be found at all. */
  lemma RoomIff(t: Entries, lastUsed: nat, prev: nat, n: nat)
    requires InTable(t, lastUsed) && InTable(t, prev) && 0 < n
    ensures Room(t, lastUsed, prev, n) <==>
            n <= |FreeClusters(t)| && !(FreeClusters(t) == {lastUsed} && After(|t|, prev) != lastUsed)
  {
    ExhaustedIff(t, lastUsed, prev);
    assert FreeClusters(t) == {} ==> |FreeClusters(t)| == 0;
  }

  /** Room for n is room for one and then, wherever that one went, room for the others. */
  lemma RoomForOneMore(t: Entries, lastUsed: nat, prev: nat, c: nat, n: nat)
    requires InTable(t, lastUsed) && InTable(t, prev) && t[prev] != 0 && 0 < n
    requires NextFit(t, lastUsed, prev, c)
    ensures !Exhausted(t, lastUsed, prev)
    ensures Room(t, lastUsed, prev, n) <==> Room(Stretched(t, prev, c), c, c, n - 1)
  {
    var u := Stretched(t, prev, c);
    assert c in FreeClusters(t);
    assert FreeClusters(u) == FreeClusters(t) - {c};
    if FreeClusters(u) == {} {
      assert |FreeClusters(t)| == 1;
    } else {
      var d :| d in FreeClusters(u);
      assert InTable(u, d) && u[d] == 0 && d != c;
    }
    forall d | InTable(u, d) && u[d] == 0
      ensures d in FreeClusters(u)
    {
    }
  }

  // ---- The same steps on the disk

  /** The logical disk after stretch_chain, with the hints it stores. */
  function StretchedDisk(g: Geometry, L: Disk, prev: nat, c: nat, freeCnt: nat): (r: Disk)
    requires TableFits(g, L) && prev < g.clustCnt && c < g.clustCnt && freeCnt < WORD_MOD
  {
    var marked := PutEntry(g, L, c, EOC);
    WithInfo(g, if prev == 0 then marked else PutEntry(g, marked, prev, c), c, freeCnt)
  }

  lemma StretchedDiskEffect(g: Geometry, L: Disk, prev: nat, c: nat, freeCnt: nat)
    requires TableFits(g, L) && prev < g.clustCnt && c < g.clustCnt && freeCnt < WORD_MOD
    ensures var r := StretchedDisk(g, L, prev, c, freeCnt);
      |r.sectors| == |L.sectors| && Kept(g, L, r) && Table(g, r) == Stretched(Table(g, L), prev, c) && InfoIs(g, r, c, freeCnt)
  {
    hide PutEntry, WithInfo, InfoIs, Kept, Table, Layout, Word, WithWord;
    LayoutBounds(g, |L.sectors|);
    var marked := PutEntry(g, L, c, EOC);
    var linked := if prev == 0 then marked else PutEntry(g, marked, prev, c);
    PutEntryKeeps(g, L, c, EOC);
    assert EOC % ENTRY_MOD == EOC && c % ENTRY_MOD == c;
    assert Table(g, marked) == Table(g, L)[c := EOC];
    if prev != 0 {
      PutEntryKeeps(g, marked, prev, c);
      assert Table(g, linked) == Table(g, marked)[prev := c];
      KeptTransitive(g, L, marked, linked);
    }
    assert Table(g, linked) == Stretched(Table(g, L), prev, c);
    WithInfoKeeps(g, linked, c, freeCnt);
    KeptTransitive(g, L, linked, WithInfo(g, linked, c, freeCnt));
  }

  /** From L0 to L nothing has changed but one chain, which has grown from q0 to q. */
  ghost predicate Extended(g: Geometry, L0: Disk, q0: seq<nat>, L: Disk, q: seq<nat>)
    requires TableFits(g, L0) && TableFits(g, L)
  {
    Kept(g, L0, L) && Grown(Table(g, L0), q0, Table(g, L), q)
  }

  /** How many clusters a chain of n must grow by to have one at index k. */
  function Missing(n: nat, k: nat): nat {
    if k < n then 0 else k + 1 - n
  }

  /** Growing to index x and from there to index y is growing to index y. */
  lemma MissingSplit(n: nat, x: nat, y: nat)
    requires x <= y
    ensures Missing(n, y) == Missing(n, x) + Missing(n + Missing(n, x), y)
  {
  }

  lemma ExtendedTransitive(g: Geometry, L0: Disk, q0: seq<nat>, L: Disk, q: seq<nat>, r: Disk, q': seq<nat>)
    requires TableFits(g, L0) && TableFits(g, L) && TableFits(g, r)
    requires IsChain(Table(g, L0), q0) && Extended(g, L0, q0, L, q) && Extended(g, L, q, r, q')
    ensures Extended(g, L0, q0, r, q')
  {
    hide Table, Kept, Grown;
    KeptTransitive(g, L0, L, r);
    GrownTransitive(Table(g, L0), q0, Table(g, L), q, Table(g, r), q');
  }

  lemma ExtendedByNone(g: Geometry, L: Disk, q: seq<nat>)
    requires TableFits(g, L) && EntriesOk(Table(g, L)) && IsChain(Table(g, L), q)
    ensures Extended(g, L, q, L, q)
  {
    hide Table, Kept;
    KeptReflexive(g, L);
  }

  lemma ExtendedByOne(g: Geometry, L0: Disk, q0: seq<nat>, L: Disk, q: seq<nat>, lastUsed: nat, c: nat, freeCnt: nat, n: nat, extra: nat)
    requires TableFits(g, L0) && TableFits(g, L) && IsChain(Table(g, L0), q0) && Extended(g, L0, q0, L, q)
    requires IsCluster(g, lastUsed) && freeCnt < WORD_MOD && 0 < n
    requires 0 < |q| && IsCluster(g, q[|q| - 1]) && NextFit(Table(g, L), lastUsed, q[|q| - 1], c)
    ensures TableFits(g, StretchedDisk(g, L, q[|q| - 1], c, freeCnt))
    ensures Extended(g, L0, q0, StretchedDisk(g, L, q[|q| - 1], c, freeCnt), q + [c])
    ensures Room(Table(g, L), lastUsed, q[|q| - 1], n)
       <==> Room(Table(g, StretchedDisk(g, L, q[|q| - 1], c, freeCnt)), c, c, n - 1)
    ensures Room(Table(g, L), lastUsed, q[|q| - 1], n + extra)
       <==> Room(Table(g, StretchedDisk(g, L, q[|q| - 1], c, freeCnt)), c, c, n - 1 + extra)
  {
    hide Table, Layout, StretchedDisk, Kept, Grown, Room, Exhausted, NextFit;
    var t, last := Table(g, L), q[|q| - 1];
    GrownFacts(Table(g, L0), q0, t, q);
    ChainStep(t, q, |q| - 1);
    NextFitIsFree(t, lastUsed, last, c);
    GrowByOne(Table(g, L0), q0, t, q, c);
    RoomForOneMore(t, lastUsed, last, c, n);
    RoomForOneMore(t, lastUsed, last, c, n + extra);
    StretchedDiskEffect(g, L, last, c, freeCnt);
    KeptTransitive(g, L0, L, StretchedDisk(g, L, last, c, freeCnt));
  }

  datatype FreedDisk = FreedDisk(L: Disk, count: nat, ok: bool)

  /** FreeWalk, one put_fat after the other on the disk. */
  function FreeOnDisk(g: Geometry, L: Disk, c: nat): (r: FreedDisk)
    requires TableFits(g, L) && c < g.clustCnt
    ensures |r.L.sectors| == |L.sectors|
    decreases g.clustCnt - FreeCount(Table(g, L))
  {
    var t := Table(g, L);
    match Classify(t[c], g.clustCnt)
    case Last => FreedDisk(PutEntry(g, L, c, 0), 1, true)
    case Used =>
      FreesOne(g, L, c);
      var r := FreeOnDisk(g, PutEntry(g, L, c, 0), t[c]);
      r.(count := r.count + 1)
    case _ => FreedDisk(L, 0, false)
  }

  lemma FreesOne(g: Geometry, L: Disk, c: nat)
    requires TableFits(g, L) && c < g.clustCnt && Table(g, L)[c] != 0
    ensures Table(g, PutEntry(g, L, c, 0)) == Table(g, L)[c := 0]
    ensures FreeCount(Table(g, L)) < FreeCount(Table(g, PutEntry(g, L, c, 0))) <= g.clustCnt
  {
    hide PutEntry, Table, Layout;
    PutEntryKeeps(g, L, c, 0);
    FreeCountUpdate(Table(g, L), c, 0);
  }

  lemma {:induction false} FreeOnDiskEffect(g: Geometry, L: Disk, c: nat)
    requires TableFits(g, L) && c < g.clustCnt
    ensures var r := FreeOnDisk(g, L, c);
      Kept(g, L, r.L) && FreeWalk(Table(g, L), c) == Freed(Table(g, r.L), r.count, r.ok)
    decreases g.clustCnt - FreeCount(Table(g, L))
  {
    hide PutEntry, Table, Layout, Kept;
    var t := Table(g, L);
    KeptReflexive(g, L);
    PutEntryKeeps(g, L, c, 0);
    if Classify(t[c], g.clustCnt).Used? {
      FreesOne(g, L, c);
      var m := PutEntry(g, L, c, 0);
      FreeOnDiskEffect(g, m, t[c]);
      KeptTransitive(g, L, m, FreeOnDisk(g, m, t[c]).L);
    }
  }
}
