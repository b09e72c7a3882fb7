/**
 * The paper detail page's left-hand list: every node but the centre, most
 * cited first (a missing count reads as 0), at most twenty of them. The sort
 * is stable, as JavaScript's `Array.prototype.sort` is: papers with equal
 * counts keep their network order.
 */
module Sidebar {
  import opened NetworkTypes

  /** How many papers the list shows at most. */
  const SidebarLimit: nat := 20

  /** The sort key: `citationCount || 0`. */
  function Key(n: NetworkNode): int {
    CountOrZero(n.citationCount)
  }

  /** Most cited first. */
  ghost predicate SortedByCitations(s: seq<NetworkNode>) {
    forall i, j :: 0 <= i < j < |s| ==> Key(s[i]) >= Key(s[j])
  }

  /** `nodes.filter(n => n.id !== centerId)` */
  function OtherNodes(nodes: seq<NetworkNode>, centerId: string): (others: seq<NetworkNode>)
    ensures forall i :: 0 <= i < |others| ==> others[i].id != centerId
  {
    if nodes == [] then []
    else (if nodes[0].id != centerId then [nodes[0]] else []) + OtherNodes(nodes[1..], centerId)
  }

  /** The filter keeps every other paper, as often as it occurs, and nothing else. */
  lemma {:induction false} OtherNodesCounts(nodes: seq<NetworkNode>, centerId: string, n: NetworkNode)
    ensures multiset(OtherNodes(nodes, centerId))[n] == if n.id != centerId then multiset(nodes)[n] else 0
  {
    if nodes != [] {
      assert nodes == [nodes[0]] + nodes[1..];
      OtherNodesCounts(nodes[1..], centerId, n);
    }
  }

  /** A node cited at least as often as the head of a sorted list can go in front of it. */
  lemma ConsSorted(h: NetworkNode, t: seq<NetworkNode>)
    requires SortedByCitations(t)
    requires t != [] ==> Key(h) >= Key(t[0])
    ensures SortedByCitations([h] + t)
  {
  }

  /** Insert `x` after every element whose count is at least its own. */
  function Insert(x: NetworkNode, s: seq<NetworkNode>): (r: seq<NetworkNode>)
    requires SortedByCitations(s)
    ensures SortedByCitations(r)
    ensures multiset(r) == multiset(s) + multiset{x}
    ensures |r| == |s| + 1
    ensures r[0] == x || (s != [] && r[0] == s[0])
  {
    if s == [] then [x]
    else if Key(x) > Key(s[0]) then
      ConsSorted(x, s);
      [x] + s
    else
      assert s == [s[0]] + s[1..];
      var rest := Insert(x, s[1..]);
      ConsSorted(s[0], rest);
      [s[0]] + rest
  }

  /** Insertion sort, element by element from the front: descending by count, stable. */
  function SortByCitations(s: seq<NetworkNode>): (r: seq<NetworkNode>)
    ensures SortedByCitations(r)
    ensures multiset(r) == multiset(s)
    decreases |s|
  {
    if s == [] then []
    else
      assert s == s[..|s| - 1] + [s[|s| - 1]];
      Insert(s[|s| - 1], SortByCitations(s[..|s| - 1]))
  }

  lemma PrefixOfSorted(s: seq<NetworkNode>, k: nat)
    requires SortedByCitations(s) && k <= |s|
    ensures SortedByCitations(s[..k])
    ensures multiset(s[..k]) + multiset(s[k..]) == multiset(s)
    ensures forall i, j :: 0 <= i < k <= j < |s| ==> Key(s[i]) >= Key(s[j])
  {
    assert s == s[..k] + s[k..];
  }

  /** `nodes.filter(...).sort(...).slice(0, 20)` */
  function SidebarNodes(nodes: seq<NetworkNode>, centerId: string): (shown: seq<NetworkNode>)
    ensures |shown| == if |OtherNodes(nodes, centerId)| < SidebarLimit then |OtherNodes(nodes, centerId)| else SidebarLimit
    ensures SortedByCitations(shown)
    ensures forall i :: 0 <= i < |shown| ==> shown[i].id != centerId
    ensures multiset(shown) <= multiset(OtherNodes(nodes, centerId))
  {
    var others := OtherNodes(nodes, centerId);
    var sorted := SortByCitations(others);
    var k := if |sorted| < SidebarLimit then |sorted| else SidebarLimit;
    PrefixOfSorted(sorted, k);
    assert forall i :: 0 <= i < k ==> sorted[..k][i] in multiset(others);
    sorted[..k]
  }

  lemma SortedPrefixDominates(s: seq<NetworkNode>, k: nat)
    requires SortedByCitations(s) && k <= |s|
    ensures forall n, m :: n in multiset(s) - multiset(s[..k]) && m in s[..k] ==> Key(n) <= Key(m)
  {
    PrefixOfSorted(s, k);
    assert multiset(s) - multiset(s[..k]) == multiset(s[k..]);
    forall n, m | n in multiset(s) - multiset(s[..k]) && m in s[..k]
      ensures Key(n) <= Key(m)
    {
      var a :| 0 <= a < k && s[a] == m;
      var b :| 0 <= b < |s[k..]| && s[k..][b] == n;
      assert s[k + b] == n;
    }
  }

  /** The papers left out of the list are cited no more than any paper shown. */
  lemma SidebarShowsMostCited(nodes: seq<NetworkNode>, centerId: string)
    ensures var shown := SidebarNodes(nodes, centerId);
      forall n, m :: n in multiset(OtherNodes(nodes, centerId)) - multiset(shown) && m in shown ==> Key(n) <= Key(m)
  {
    var sorted := SortByCitations(OtherNodes(nodes, centerId));
    var k := if |sorted| < SidebarLimit then |sorted| else SidebarLimit;
    assert SidebarNodes(nodes, centerId) == sorted[..k];
    SortedPrefixDominates(sorted, k);
  }

  // ---------------------------------------------------------------------------
  // Stability: among papers with the same count, the list keeps network order.

  /** `[n]` when `n`'s count is `k`, else nothing. */
  function Pick(n: NetworkNode, k: int): seq<NetworkNode> {
    if Key(n) == k then [n] else []
  }

  /** The elements of `s` whose count is `k`, in order. */
  function WithKey(s: seq<NetworkNode>, k: int): seq<NetworkNode> {
    if s == [] then [] else Pick(s[0], k) + WithKey(s[1..], k)
  }

  lemma {:induction false} WithKeyAppend(a: seq<NetworkNode>, b: seq<NetworkNode>, k: int)
    ensures WithKey(a + b, k) == WithKey(a, k) + WithKey(b, k)
  {
    if a == [] {
      assert a + b == b;
    } else {
      assert (a + b)[0] == a[0] && (a + b)[1..] == a[1..] + b;
      WithKeyAppend(a[1..], b, k);
      assert WithKey(a + b, k) == Pick(a[0], k) + (WithKey(a[1..], k) + WithKey(b, k));
    }
  }

  lemma {:induction false} WithKeyNone(s: seq<NetworkNode>, k: int)
    requires forall i :: 0 <= i < |s| ==> Key(s[i]) < k
    ensures WithKey(s, k) == []
  {
    if s != [] {
      WithKeyNone(s[1..], k);
    }
  }

  lemma WithKeyCons(h: NetworkNode, t: seq<NetworkNode>, k: int)
    ensures WithKey([h] + t, k) == Pick(h, k) + WithKey(t, k)
  {
    assert ([h] + t)[0] == h && ([h] + t)[1..] == t;
  }

  /** A node cited more than every element of a sorted list is the only one with its count. */
  lemma FrontKeepsOrder(x: NetworkNode, s: seq<NetworkNode>, k: int)
    requires SortedByCitations(s) && s != [] && Key(x) > Key(s[0])
    ensures WithKey([x] + s, k) == WithKey(s, k) + Pick(x, k)
  {
    WithKeyCons(x, s, k);
    if Key(x) == k {
      WithKeyNone(s, k);
    }
  }

  /** Putting the same head in front of both sides keeps an order-preserving insertion so. */
  lemma ConsKeepsOrder(h: NetworkNode, t: seq<NetworkNode>, rest: seq<NetworkNode>, x: NetworkNode, k: int)
    requires WithKey(rest, k) == WithKey(t, k) + Pick(x, k)
    ensures WithKey([h] + rest, k) == WithKey([h] + t, k) + Pick(x, k)
  {
    WithKeyCons(h, rest, k);
    WithKeyCons(h, t, k);
  }

  lemma SortedTail(s: seq<NetworkNode>)
    requires SortedByCitations(s) && s != []
    ensures SortedByCitations(s[1..])
  {
  }

  /** Inserting `x` puts it after every element with its own count. */
  lemma {:induction false} InsertKeepsOrder(x: NetworkNode, s: seq<NetworkNode>, k: int)
    requires SortedByCitations(s)
    ensures WithKey(Insert(x, s), k) == WithKey(s, k) + Pick(x, k)
  {
    if s == [] {
      WithKeyCons(x, [], k);
    } else if Key(x) > Key(s[0]) {
      FrontKeepsOrder(x, s, k);
    } else {
      assert s == [s[0]] + s[1..];
      SortedTail(s);
      assert Insert(x, s) == [s[0]] + Insert(x, s[1..]);
      InsertKeepsOrder(x, s[1..], k);
      ConsKeepsOrder(s[0], s[1..], Insert(x, s[1..]), x, k);
    }
  }

  /** The sort is stable: for every count, the papers with that count keep their order. */
  lemma {:induction false} SortIsStable(s: seq<NetworkNode>, k: int)
    ensures WithKey(SortByCitations(s), k) == WithKey(s, k)
    decreases |s|
  {
    if s != [] {
      var init, last := s[..|s| - 1], s[|s| - 1];
      assert s == init + [last];
      SortIsStable(init, k);
      InsertKeepsOrder(last, SortByCitations(init), k);
      WithKeyAppend(init, [last], k);
      assert WithKey([last], k) == Pick(last, k) + WithKey([], k);
    }
  }

  /**
   * Among equally cited papers, the list shows the ones that come first in
   * network order: for every count, the papers shown with it are a prefix of
   * the other papers with it.
   */
  lemma SidebarKeepsNetworkOrder(nodes: seq<NetworkNode>, centerId: string, k: int)
    ensures WithKey(SidebarNodes(nodes, centerId), k) <= WithKey(OtherNodes(nodes, centerId), k)
  {
    var others := OtherNodes(nodes, centerId);
    var sorted := SortByCitations(others);
    var m := if |sorted| < SidebarLimit then |sorted| else SidebarLimit;
    assert SidebarNodes(nodes, centerId) == sorted[..m];
    assert sorted == sorted[..m] + sorted[m..];
    WithKeyAppend(sorted[..m], sorted[m..], k);
    SortIsStable(others, k);
  }
}
