/** `_exit_chain`: the shortest call chain from a shell function to one that runs `exit`. */
module CallGraph {
  import opened Options
  import opened Text

  type Graph = map<string, set<string>>

  type Chain = seq<string>

  /** `graph.get(name, ())` */
  function Callees(graph: Graph, name: string): set<string>
  {
    if name in graph then graph[name] else {}
  }

  /** A genuine call chain: each function calls the next. */
  ghost predicate IsChain(graph: Graph, name: string, c: Chain)
  {
    |c| > 0 && c[0] == name && forall i :: 0 < i < |c| ==> c[i] in Callees(graph, c[i - 1])
  }

  function Last(c: Chain): string
    requires |c| > 0
  {
    c[|c| - 1]
  }

  function ButLast(c: Chain): Chain
    requires |c| > 0
  {
    c[..|c| - 1]
  }

  // ---- the order chains are compared in --------------------------------------------------

  /** The first place two chains of one length differ decides. */
  predicate LexBefore(a: Chain, b: Chain)
    requires |a| == |b|
  {
    |a| > 0 && (Less(a[0], b[0]) || (a[0] == b[0] && LexBefore(a[1..], b[1..])))
  }

  /** Shorter first; of two equally long, the one whose names come first. */
  predicate Before(a: Chain, b: Chain)
  {
    |a| < |b| || (|a| == |b| && LexBefore(a, b))
  }

  predicate NotAfter(a: Chain, b: Chain)
  {
    a == b || Before(a, b)
  }

  lemma {:induction false} LexTransitive(a: Chain, b: Chain, c: Chain)
    requires |a| == |b| == |c| && LexBefore(a, b) && LexBefore(b, c)
    ensures LexBefore(a, c)
  {
    if Less(a[0], b[0]) {
      if Less(b[0], c[0]) { LessIsTransitive(a[0], b[0], c[0]); }
    } else if !Less(b[0], c[0]) {
      LexTransitive(a[1..], b[1..], c[1..]);
    }
  }

  lemma {:induction false} LexStrict(a: Chain, b: Chain)
    requires |a| == |b| && LexBefore(a, b)
    ensures a != b && !LexBefore(b, a)
  {
    if Less(a[0], b[0]) {
      LessIsStrict(a[0], b[0]);
    } else {
      LexStrict(a[1..], b[1..]);
    }
  }

  lemma BeforeTransitive(a: Chain, b: Chain, c: Chain)
    requires NotAfter(a, b) && NotAfter(b, c)
    ensures NotAfter(a, c)
    ensures a != b || b != c ==> Before(a, c)
  {
    if |a| == |b| == |c| && a != b && b != c {
      LexTransitive(a, b, c);
    }
  }

  lemma {:induction false} LexAppend(a: Chain, b: Chain, x: string, y: string)
    requires |a| == |b| && (LexBefore(a, b) || (a == b && Less(x, y)))
    ensures LexBefore(a + [x], b + [y])
  {
    if |a| > 0 && !Less(a[0], b[0]) {
      if a == b {
        LexAppend(a[1..], b[1..], x, y);
      } else {
        LexStrict(a, b);
        LexAppend(a[1..], b[1..], x, y);
      }
      assert (a + [x])[1..] == a[1..] + [x] && (b + [y])[1..] == b[1..] + [y];
    }
  }

  /** Extending two chains by the same name keeps their order. */
  lemma AppendKeepsOrder(a: Chain, b: Chain, x: string)
    requires NotAfter(a, b)
    ensures NotAfter(a + [x], b + [x])
  {
    if |a| == |b| && a != b { LexAppend(a, b, x, x); }
  }

  // ---- the search --------------------------------------------------------------------------

  /** What the search knows: every function seen has its least chain, and what was taken off the queue has had all
      its callees seen. */
  ghost predicate Known(graph: Graph, name: string, exits: set<string>, chains: map<string, Chain>, past: set<string>)
  {
    name in chains && past <= chains.Keys && past !! exits &&
    (forall v <- chains :: IsChain(graph, name, chains[v]) && Last(chains[v]) == v) &&
    (forall p :: IsChain(graph, name, p) && Last(p) in chains ==> NotAfter(chains[Last(p)], p))
  }

  ghost predicate Closed(graph: Graph, chains: map<string, Chain>, past: set<string>)
  {
    forall v <- past :: Callees(graph, v) <= chains.Keys
  }

  /** The queue holds the chains of the functions seen and not yet taken off, in order, none more than one call
      longer than the last taken off. */
  ghost predicate Queued(queue: seq<Chain>, chains: map<string, Chain>, past: set<string>, floor: Chain)
  {
    (forall i :: 0 <= i < |queue| ==> |queue[i]| > 0 && Last(queue[i]) in chains && Last(queue[i]) !in past &&
                                      chains[Last(queue[i])] == queue[i]) &&
    (forall v :: v in chains && v !in past ==> chains[v] in queue) &&
    (forall i, j :: 0 <= i < j < |queue| ==> Before(queue[i], queue[j])) &&
    forall i :: 0 <= i < |queue| ==>
                  Before(floor, queue[i]) && |queue[i]| <= |floor| + 1 &&
                  (|queue[i]| == |floor| + 1 ==> NotAfter(ButLast(queue[i]), floor))
  }

  /** The first function of a chain that has not been taken off the queue has been seen. */
  lemma {:induction false} Frontier(graph: Graph, name: string, chains: map<string, Chain>, past: set<string>, p: Chain,
                                    n: nat)
    returns (k: nat)
    requires name in chains && Closed(graph, chains, past) && IsChain(graph, name, p)
    requires n <= |p| - 1 && Last(p) !in past
    requires forall i :: 0 <= i < n ==> p[i] in past
    ensures n <= k < |p| && p[k] in chains && p[k] !in past
    decreases |p| - n
  {
    if p[n] in past {
      k := Frontier(graph, name, chains, past, p, n + 1);
    } else {
      k := n;
      if n > 0 { assert p[n] in Callees(graph, p[n - 1]); }
    }
  }

  lemma PrefixIsChain(graph: Graph, name: string, p: Chain, k: nat)
    requires IsChain(graph, name, p) && 0 < k <= |p|
    ensures IsChain(graph, name, p[..k])
  {
  }

  /** Whatever the last chain taken off is, nothing beyond what was taken off has a lesser one. */
  lemma HeadIsLeast(graph: Graph, name: string, exits: set<string>, chains: map<string, Chain>, past: set<string>,
                    c: Chain, p: Chain)
    requires Known(graph, name, exits, chains, past) && Closed(graph, chains, past)
    requires forall v :: v in chains && v !in past ==> NotAfter(c, chains[v])
    requires IsChain(graph, name, p) && Last(p) !in past
    ensures NotAfter(c, p)
  {
    var k := Frontier(graph, name, chains, past, p, 0);
    PrefixIsChain(graph, name, p, k + 1);
    assert Last(p[..k + 1]) == p[k];
    BeforeTransitive(c, chains[p[k]], p[..k + 1]);
    if k + 1 == |p| { assert p[..k + 1] == p; }
  }

  /** Extending the least chain by a function not seen before gives that function's least chain. */
  lemma ExtensionIsLeast(graph: Graph, name: string, exits: set<string>, chains: map<string, Chain>, past: set<string>,
                         c: Chain, v: string, p: Chain)
    requires Known(graph, name, exits, chains, past) && Closed(graph, chains, past)
    requires forall u :: u in chains && u !in past ==> NotAfter(c, chains[u])
    requires v !in chains && IsChain(graph, name, p) && Last(p) == v
    ensures NotAfter(c + [v], p)
  {
    var q := ButLast(p);
    assert |p| > 1;
    PrefixIsChain(graph, name, p, |p| - 1);
    assert p[|p| - 1] in Callees(graph, Last(q));
    HeadIsLeast(graph, name, exits, chains, past, c, q);
    AppendKeepsOrder(c, q, v);
    assert p == q + [v];
  }

  /** Of the chains one call longer than the one in hand, the old ones go before its extensions, and its extensions
      follow the order of the callees. */
  ghost predicate Extending(queue: seq<Chain>, chain: Chain, callees: seq<string>, j: nat)
    requires j <= |callees|
  {
    forall i :: 0 <= i < |queue| && |queue[i]| == |chain| + 1 ==>
                  Before(ButLast(queue[i]), chain) || (ButLast(queue[i]) == chain && Last(queue[i]) in callees[..j])
  }

  lemma Pop(queue: seq<Chain>, chains: map<string, Chain>, past: set<string>, floor: Chain, callees: seq<string>)
    requires |queue| > 0 && Queued(queue, chains, past, floor)
    requires forall v <- chains :: |chains[v]| > 0 && Last(chains[v]) == v
    ensures Queued(queue[1..], chains, past + {Last(queue[0])}, queue[0])
    ensures Extending(queue[1..], queue[0], callees, 0)
    ensures forall v :: v in chains && v !in past ==> NotAfter(queue[0], chains[v])
  {
    var c, rest := queue[0], queue[1..];
    forall i | 0 <= i < |rest|
      ensures Before(c, rest[i]) && |rest[i]| <= |c| + 1 && Last(rest[i]) != Last(c)
      ensures |rest[i]| == |c| + 1 ==> Before(ButLast(rest[i]), c)
    {
      assert rest[i] == queue[i + 1];
      if |rest[i]| == |c| { LexStrict(c, rest[i]); }
      if |rest[i]| == |c| + 1 { BeforeTransitive(ButLast(rest[i]), floor, c); }
    }
    forall v | v in chains && v !in past
      ensures NotAfter(c, chains[v]) && (v != Last(c) ==> chains[v] in rest)
    {
      var i :| 0 <= i < |queue| && queue[i] == chains[v];
      if i > 0 { assert rest[i - 1] == chains[v]; }
    }
  }

  lemma Push(queue: seq<Chain>, chains: map<string, Chain>, past: set<string>, chain: Chain, callees: seq<string>,
             j: nat)
    requires j < |callees| && Ascending(callees) && |chain| > 0
    requires Queued(queue, chains, past, chain) && Extending(queue, chain, callees, j)
    requires callees[j] !in chains && past <= chains.Keys
    ensures Queued(queue + [chain + [callees[j]]], chains[callees[j] := chain + [callees[j]]], past, chain)
    ensures Extending(queue + [chain + [callees[j]]], chain, callees, j + 1)
  {
    var v := callees[j];
    var longer := chain + [v];
    assert ButLast(longer) == chain && Last(longer) == v;
    forall i | 0 <= i < |queue| ensures Before(queue[i], longer) {
      if |queue[i]| == |longer| {
        var e := queue[i];
        assert e == ButLast(e) + [Last(e)];
        LexAppend(ButLast(e), chain, Last(e), v);
      }
    }
    assert callees[..j + 1] == callees[..j] + [v];
  }

  lemma Learn(graph: Graph, name: string, exits: set<string>, chains: map<string, Chain>, past: set<string>,
              c: Chain, v: string)
    requires Known(graph, name, exits, chains, past) && Closed(graph, chains, past)
    requires forall u :: u in chains && u !in past ==> NotAfter(c, chains[u])
    requires IsChain(graph, name, c) && v in Callees(graph, Last(c)) && v !in chains
    ensures Known(graph, name, exits, chains[v := c + [v]], past) && Closed(graph, chains[v := c + [v]], past)
    ensures forall u :: u in chains[v := c + [v]] && u !in past ==> NotAfter(c, chains[v := c + [v]][u])
  {
    forall p | IsChain(graph, name, p) && Last(p) == v ensures NotAfter(c + [v], p) {
      ExtensionIsLeast(graph, name, exits, chains, past, c, v, p);
    }
  }

  ghost function AllNames(graph: Graph, name: string): set<string>
  {
    {name} + set v, w | v in graph && w in graph[v] :: w
  }

  /** `_exit_chain` */
  method ExitChain(name: string, graph: Graph, exits: set<string>) returns (r: Option<Chain>)
    ensures r.Some? ==> IsChain(graph, name, r.value) && Last(r.value) in exits
    ensures forall p :: IsChain(graph, name, p) && Last(p) in exits ==> r.Some? && NotAfter(r.value, p)
  {
    var queue: seq<Chain> := [[name]];
    var seen := {name};
    ghost var chains, past, floor := map[name := [name]], {}, [];
    FirstIsKnown(graph, name, exits);
    while queue != []
      invariant Known(graph, name, exits, chains, past) && Closed(graph, chains, past)
      invariant Queued(queue, chains, past, floor)
      invariant seen == chains.Keys <= AllNames(graph, name)
      decreases AllNames(graph, name) - past
    {
      var chain := queue[0];
      var callees := Sorted(Callees(graph, Last(chain)));
      Pop(queue, chains, past, floor, callees);
      queue := queue[1..];
      if Last(chain) in exits {
        ExitIsLeast(graph, name, exits, chains, past, chain);
        return Some(chain);
      }
      ghost var taken := past + {Last(chain)};
      queue, seen, chains := Expand(graph, name, exits, chain, callees, queue, seen, chains, past);
      assert Closed(graph, chains, taken) by { AllSeen(graph, chains, past, Last(chain), callees, seen); }
      past, floor := taken, chain;
    }
    forall p | IsChain(graph, name, p) ensures Last(p) in past {
      Exhausted(graph, name, chains, past, p, |p| - 1);
    }
    return None;
  }

  /** No chain to any exit goes before the one in hand. */
  lemma ExitIsLeast(graph: Graph, name: string, exits: set<string>, chains: map<string, Chain>, past: set<string>,
                    chain: Chain)
    requires Known(graph, name, exits, chains, past) && Closed(graph, chains, past)
    requires forall v :: v in chains && v !in past ==> NotAfter(chain, chains[v])
    ensures forall p :: IsChain(graph, name, p) && Last(p) in exits ==> NotAfter(chain, p)
  {
    forall p | IsChain(graph, name, p) && Last(p) in exits ensures NotAfter(chain, p) {
      HeadIsLeast(graph, name, exits, chains, past, chain, p);
    }
  }

  /** With its callees seen, one more function can be taken off. */
  lemma AllSeen(graph: Graph, chains: map<string, Chain>, past: set<string>, last: string, callees: seq<string>,
                seen: set<string>)
    requires Closed(graph, chains, past) && seen == chains.Keys
    requires forall x <- Callees(graph, last) :: x in callees
    requires forall i :: 0 <= i < |callees| ==> Has(seen, callees[i])
    ensures Closed(graph, chains, past + {last})
  {
    forall x | x in Callees(graph, last) ensures x in chains {
      var i :| 0 <= i < |callees| && callees[i] == x;
      assert Has(seen, callees[i]);
    }
  }

  lemma {:induction false} Exhausted(graph: Graph, name: string, chains: map<string, Chain>, past: set<string>,
                                     p: Chain, n: nat)
    requires Closed(graph, chains, past) && chains.Keys <= past && name in past && IsChain(graph, name, p) && n < |p|
    ensures p[n] in past
  {
    if n > 0 {
      Exhausted(graph, name, chains, past, p, n - 1);
      assert p[n] in Callees(graph, p[n - 1]);
    }
  }

  /** Where the search stands with the first `j` callees of `chain` looked at. */
  ghost predicate Searching(graph: Graph, name: string, exits: set<string>, chain: Chain, callees: seq<string>, j: nat,
                            queue: seq<Chain>, seen: set<string>, chains: map<string, Chain>, past: set<string>)
  {
    IsChain(graph, name, chain) && Last(chain) in chains && j <= |callees| &&
    Known(graph, name, exits, chains, past) && Closed(graph, chains, past) &&
    Queued(queue, chains, past + {Last(chain)}, chain) && Extending(queue, chain, callees, j) &&
    (forall u :: u in chains && u !in past ==> NotAfter(chain, chains[u])) &&
    seen == chains.Keys <= AllNames(graph, name) && forall i :: 0 <= i < j ==> Has(seen, callees[i])
  }

  /** Queue an extension of `chain` for every callee not seen before, in order. */
  method Expand(graph: Graph, name: string, exits: set<string>, chain: Chain, callees: seq<string>, queue0: seq<Chain>,
                seen0: set<string>, ghost chains0: map<string, Chain>, ghost past: set<string>)
    returns (queue: seq<Chain>, seen: set<string>, ghost chains: map<string, Chain>)
    requires Searching(graph, name, exits, chain, callees, 0, queue0, seen0, chains0, past)
    requires Ascending(callees) && forall i :: 0 <= i < |callees| ==> callees[i] in Callees(graph, Last(chain))
    ensures Searching(graph, name, exits, chain, callees, |callees|, queue, seen, chains, past)
  {
    queue, seen, chains := queue0, seen0, chains0;
    for j := 0 to |callees|
      invariant Searching(graph, name, exits, chain, callees, j, queue, seen, chains, past)
    {
      queue, seen, chains := ExpandOne(graph, name, exits, chain, callees, j, queue, seen, chains, past);
    }
  }

  predicate Has(s: set<string>, x: string) { x in s }

  method ExpandOne(graph: Graph, name: string, exits: set<string>, chain: Chain, callees: seq<string>, j: nat,
                   queue0: seq<Chain>, seen0: set<string>, ghost chains0: map<string, Chain>, ghost past: set<string>)
    returns (queue: seq<Chain>, seen: set<string>, ghost chains: map<string, Chain>)
    requires Searching(graph, name, exits, chain, callees, j, queue0, seen0, chains0, past)
    requires j < |callees| && Ascending(callees) && callees[j] in Callees(graph, Last(chain))
    ensures Searching(graph, name, exits, chain, callees, j + 1, queue, seen, chains, past)
  {
    var callee := callees[j];
    if callee in seen0 {
      ExtendingNext(queue0, chain, callees, j);
      return queue0, seen0, chains0;
    }
    Learn(graph, name, exits, chains0, past, chain, callee);
    Push(queue0, chains0, past + {Last(chain)}, chain, callees, j);
    queue, seen := queue0 + [chain + [callee]], seen0 + {callee};
    chains := chains0[callee := chain + [callee]];
  }

  lemma FirstIsKnown(graph: Graph, name: string, exits: set<string>)
    ensures Known(graph, name, exits, map[name := [name]], {})
  {
    forall p | IsChain(graph, name, p) && Last(p) == name ensures NotAfter([name], p) {
      if |p| == 1 { assert p == [name]; }
    }
  }

  lemma ExtendingNext(queue: seq<Chain>, chain: Chain, callees: seq<string>, j: nat)
    requires j < |callees| && Extending(queue, chain, callees, j)
    ensures Extending(queue, chain, callees, j + 1)
  {
    assert callees[..j + 1] == callees[..j] + [callees[j]];
  }
}
