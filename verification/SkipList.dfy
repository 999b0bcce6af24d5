/** The skip list: linked nodes with one link per level. */
module SkipList {

  /** What is stored; elements are compared by their keys, so different ones may be equal to the list. */
  datatype Elem = Elem(key: int, value: int)

  class Node {
    var data: Elem
    var next: seq<Node?>

    /** create_node: level + 1 empty links. */
    constructor (level: nat, t: Elem)
      ensures data == t && next == seq(level + 1, _ => null)
    {
      data, next := t, seq(level + 1, _ => null);
    }
  }

  /** The nodes linked at one level, in order. */
  type Chain = seq<Node>

  ghost function At(chain: Chain, j: nat): (n: Node?) {
    if j < |chain| then chain[j] else null
  }

  /** The node before a position: the head or the one at the position before. */
  ghost function Prev(head: Node, chain: Chain, j: nat): (n: Node)
    requires j <= |chain|
  {
    if j == 0 then head else chain[j - 1]
  }

  ghost predicate Among(chain: Chain, ns: set<Node>) {
    forall j | 0 <= j < |chain| :: chain[j] in ns
  }

  /** The links of level i run from the head through the nodes of the chain, and their keys grow. */
  ghost predicate Linked(head: Node, chain: Chain, i: nat, ns: set<Node>): (ok: bool)
    reads head, ns
    ensures ok ==> Among(chain, ns)
  {
    && Among(chain, ns)
    && (forall j | 0 <= j <= |chain| :: i < |Prev(head, chain, j).next| && Prev(head, chain, j).next[i] == At(chain, j))
    && Sorted(chain, ns)
  }

  ghost predicate Below(chain: Chain, j: nat, key: int, ns: set<Node>)
    requires Among(chain, ns) && j <= |chain|
    reads ns
  {
    forall l | 0 <= l < j :: chain[l].data.key < key
  }

  /** Position j divides the smaller keys from the others. */
  ghost predicate Divides(chain: Chain, j: nat, key: int, ns: set<Node>)
    requires Among(chain, ns)
    reads ns
  {
    && j <= |chain| && Below(chain, j, key, ns)
    && (forall l | j <= l < |chain| :: key <= chain[l].data.key)
  }

  /** The inner loop of a search: along one level, from a node before the key to the last one. */
  method Walk(from: Node, i: nat, key: int, ghost head: Node, ghost chain: Chain, ghost j: nat, ghost ns: set<Node>)
    returns (p: Node, q: Node?, ghost k: nat)
    requires Linked(head, chain, i, ns) && j <= |chain| && from == Prev(head, chain, j) && Below(chain, j, key, ns)
    ensures Divides(chain, k, key, ns) && p == Prev(head, chain, k) && q == At(chain, k)
    ensures q != null ==> q in ns && key <= q.data.key
  {
    p, k := from, j;
    q := p.next[i];
    while q != null && q.data.key < key
      invariant k <= |chain| && p == Prev(head, chain, k) && q == At(chain, k) && Below(chain, k, key, ns)
      decreases |chain| - k
    {
      p, k := q, k + 1;
      assert p == Prev(head, chain, k);
      q := p.next[i];
    }
  }

  // ----- all levels

  /** The levels: each one is linked, and has the nodes of the lowest that are tall enough. */
  ghost predicate Levels(head: Node, cs: seq<Chain>, ns: set<Node>)
    reads head, ns
  {
    && cs != [] && (forall n | n in ns :: n in cs[0])
    && (forall i | 0 <= i < |cs| :: Linked(head, cs[i], i, ns))
    && (forall i, n | 0 <= i < |cs| && n in ns && i < |n.next| :: n in cs[i])
  }

  /** A node has a position one level down, and the nodes before it there are smaller. */
  lemma Descend(head: Node, cs: seq<Chain>, ns: set<Node>, i: nat, j: nat, key: int) returns (k: nat)
    requires Levels(head, cs, ns) && 0 < i < |cs| && Linked(head, cs[i], i, ns) && Linked(head, cs[i - 1], i - 1, ns)
    requires j <= |cs[i]| && Below(cs[i], j, key, ns)
    ensures k <= |cs[i - 1]| && Prev(head, cs[i - 1], k) == Prev(head, cs[i], j) && Below(cs[i - 1], k, key, ns)
  {
    if j == 0 {
      k := 0;
    } else {
      var n := cs[i][j - 1];
      assert n == Prev(head, cs[i], j);
      assert n in cs[i - 1];
      var l :| 0 <= l < |cs[i - 1]| && cs[i - 1][l] == n;
      k := l + 1;
    }
  }

  lemma Absent(head: Node, chain: Chain, i: nat, j: nat, key: int, ns: set<Node>)
    requires Linked(head, chain, i, ns) && Divides(chain, j, key, ns) && (j < |chain| ==> chain[j].data.key != key)
    ensures forall n | n in chain :: n.data.key != key
  {
  }

  /** A chain with a node put in at a position. */
  ghost function Spliced(chain: Chain, j: nat, n: Node): (r: Chain)
    requires j <= |chain|
    ensures |r| == |chain| + 1
  {
    chain[..j] + [n] + chain[j..]
  }

  /** A level at which a new node may be linked in, at a position. */
  datatype Site = Site(head: Node, chain: Chain, ns: set<Node>, i: nat, j: nat, n: Node)

  /** Links of other levels do not matter to a level. */
  twostate lemma Untouched(s: Site)
    requires old(Linked(s.head, s.chain, s.i, s.ns))
    requires forall m | m in s.ns + {s.head} :: m.data.key == old(m.data.key) && |m.next| == old(|m.next|)
    requires forall m | m in s.ns + {s.head} :: s.i < |m.next| ==> m.next[s.i] == old(m.next[s.i])
    ensures Linked(s.head, s.chain, s.i, s.ns + {s.n})
  {
    forall j | 0 <= j <= |s.chain|
      ensures var p := Prev(s.head, s.chain, j); s.i < |p.next| && p.next[s.i] == At(s.chain, j)
    {
      assert Prev(s.head, s.chain, j) in s.ns + {s.head};
    }
  }

  /** The insert loop: at every level of the new node, it takes over the link of the node before it and is
      linked from there. Nothing else changes. */
  method LinkIn(prev: seq<Node?>, n: Node, ghost ns: set<Node>)
    requires |n.next| <= |prev| && n !in ns
    requires forall i | 0 <= i < |n.next| :: prev[i] != null && prev[i] in ns && i < |prev[i].next|
    modifies ns, n
    ensures n.data == old(n.data) && |n.next| == old(|n.next|)
    ensures forall i | 0 <= i < |n.next| :: n.next[i] == old(prev[i].next[i])
    ensures forall m | m in ns :: m.data == old(m.data) && |m.next| == old(|m.next|)
    ensures forall m, i | m in ns && 0 <= i < |m.next| ::
      m.next[i] == if i < |n.next| && m == prev[i] then n else old(m.next[i])
  {
    for i := 0 to |n.next|
      invariant n.data == old(n.data) && |n.next| == old(|n.next|)
      invariant forall l | 0 <= l < i :: n.next[l] == old(prev[l].next[l])
      invariant forall m | m in ns :: m.data == old(m.data) && |m.next| == old(|m.next|)
      invariant forall m, l | m in ns && 0 <= l < |m.next| ::
        m.next[l] == if l < i && m == prev[l] then n else old(m.next[l])
    {
      n.next := n.next[i := prev[i].next[i]];
      prev[i].next := prev[i].next[i := n];
    }
  }

  ghost predicate Sorted(chain: Chain, ns: set<Node>)
    requires Among(chain, ns)
    reads ns
  {
    forall j, k | 0 <= j < k < |chain| :: chain[j].data.key < chain[k].data.key
  }

  lemma SplicedSorted(s: Site)
    requires Among(s.chain, s.ns) && Sorted(s.chain, s.ns) && Divides(s.chain, s.j, s.n.data.key, s.ns)
    requires forall m | m in s.ns :: m.data.key != s.n.data.key
    ensures var r := Spliced(s.chain, s.j, s.n); Among(r, s.ns + {s.n}) && Sorted(r, s.ns + {s.n})
  {
  }

  /** A level stays a level when the new node is linked in between the smaller and the greater keys. */
  twostate lemma SpliceLinked(s: Site)
    requires old(Linked(s.head, s.chain, s.i, s.ns)) && s.n !in s.ns && s.n != s.head && s.head !in s.ns
    requires s.n.data == old(s.n.data) && s.i < |s.n.next|
    requires old(Divides(s.chain, s.j, s.n.data.key, s.ns)) && old(forall m | m in s.ns :: m.data.key != s.n.data.key)
    requires var p := Prev(s.head, s.chain, s.j); old(s.i < |p.next|) && s.n.next[s.i] == old(p.next[s.i])
    requires forall m | m in s.ns + {s.head} :: m.data == old(m.data) && |m.next| == old(|m.next|)
    requires forall m | m in s.ns + {s.head} && s.i < |m.next| ::
      m.next[s.i] == if m == Prev(s.head, s.chain, s.j) then s.n else old(m.next[s.i])
    ensures Linked(s.head, Spliced(s.chain, s.j, s.n), s.i, s.ns + {s.n})
  {
    hide Spliced;
    var r := Spliced(s.chain, s.j, s.n);
    SplicedSorted(s);
    forall k | 0 <= k <= |r|
      ensures var p := Prev(s.head, r, k); s.i < |p.next| && p.next[s.i] == At(r, k)
    {
      SplicedAt(s.head, s.chain, s.j, s.n, k);
      if k != s.j + 1 {
        var l := if k <= s.j then k else k - 1;
        assert Prev(s.head, s.chain, l) in s.ns + {s.head};
      }
    }
  }

  lemma SplicedAt(head: Node, chain: Chain, j: nat, n: Node, k: nat)
    requires j <= |chain| && k <= |Spliced(chain, j, n)|
    ensures var r := Spliced(chain, j, n);
      && Prev(head, r, k) ==
           (if k <= j then Prev(head, chain, k) else if k == j + 1 then n else Prev(head, chain, k - 1))
      && At(r, k) == if k < j then At(chain, k) else if k == j then n else At(chain, k - 1)
  {
  }

  /** Levels, none of them above the current one in use. */
  ghost predicate ListOk(head: Node, cs: seq<Chain>, ns: set<Node>, maxLevel: nat, cur: nat)
    reads head, ns
  {
    && |cs| == |head.next| == maxLevel + 1 && cur <= maxLevel
    && head !in ns && Levels(head, cs, ns)
    && (forall n | n in ns :: 1 <= |n.next| <= cur + 1)
  }

  /** Above the current level there is nothing. */
  lemma EmptyAbove(head: Node, cs: seq<Chain>, ns: set<Node>, maxLevel: nat, cur: nat, i: nat)
    requires ListOk(head, cs, ns, maxLevel, cur) && cur < i <= maxLevel
    ensures Linked(head, cs[i], i, ns) && cs[i] == []
  {
    Tall(head, cs[i], i, ns);
  }

  lemma Tall(head: Node, chain: Chain, i: nat, ns: set<Node>)
    requires Linked(head, chain, i, ns)
    ensures forall n | n in chain :: n in ns && i < |n.next|
    ensures chain != [] ==> chain[0] in ns && i < |chain[0].next|
  {
    if chain != [] {
      assert Prev(head, chain, 1) == chain[0];
    }
    forall n | n in chain
      ensures n in ns && i < |n.next|
    {
      var j :| 0 <= j < |chain| && chain[j] == n;
      assert Prev(head, chain, j + 1) == n;
    }
  }

  ghost predicate FoundAt(head: Node, chain: Chain, ns: set<Node>, p: Node?, j: nat, key: int)
    reads ns
  {
    Among(chain, ns) && Divides(chain, j, key, ns) && p == Prev(head, chain, j)
  }

  /** What the search for the places finds: at every level in use, where the key belongs. */
  ghost predicate Found(head: Node, cs: seq<Chain>, ns: set<Node>, cur: nat, prev: seq<Node?>, pos: seq<nat>, key: int)
    reads ns
  {
    && |prev| == |pos| == |cs| > cur
    && (forall i | 0 <= i <= cur :: FoundAt(head, cs[i], ns, prev[i], pos[i], key))
    && (forall i | cur < i < |cs| :: pos[i] == 0)
  }

  /** Where a node of some height goes: at every level it reaches, between the smaller and the greater keys. */
  ghost predicate Placed(head: Node, cs: seq<Chain>, ns: set<Node>, prev: seq<Node?>, pos: seq<nat>,
                         height: nat, key: int)
    reads ns
  {
    && |prev| == |pos| == |cs| && height <= |cs|
    && (forall i | 0 <= i < height :: FoundAt(head, cs[i], ns, prev[i], pos[i], key))
    && (forall m | m in ns :: m.data.key != key)
  }

  ghost function SplicedAll(cs: seq<Chain>, pos: seq<nat>, height: nat, n: Node): (r: seq<Chain>)
    requires height <= |cs| == |pos| && forall i | 0 <= i < height :: pos[i] <= |cs[i]|
    ensures |r| == |cs|
  {
    seq(|cs|, i requires 0 <= i < |cs| => if i < height then Spliced(cs[i], pos[i], n) else cs[i])
  }

  /** An insertion: the levels before, the nodes found, and the new node. */
  datatype Insertion = Insertion(head: Node, cs: seq<Chain>, ns: set<Node>, maxLevel: nat, cur: nat, newCur: nat,
                                 prev: seq<Node?>, pos: seq<nat>, n: Node) {
    ghost function At(i: nat): (s: Site)
      requires i < |cs| && i < |pos|
    {
      Site(head, cs[i], ns, i, pos[i], n)
    }
  }

  /** The insert loop turns levels into levels. */
  twostate lemma Inserted(x: Insertion)
    requires old(ListOk(x.head, x.cs, x.ns, x.maxLevel, x.cur))
    requires x.n !in x.ns && x.n != x.head && 1 <= |x.n.next| <= x.maxLevel + 1 && x.n.data == old(x.n.data)
    requires old(Placed(x.head, x.cs, x.ns, x.prev, x.pos, |x.n.next|, x.n.data.key)) && |x.n.next| == old(|x.n.next|)
    requires forall i | 0 <= i < |x.n.next| :: old(i < |x.prev[i].next|) && x.n.next[i] == old(x.prev[i].next[i])
    requires forall m | m in x.ns + {x.head} :: m.data == old(m.data) && |m.next| == old(|m.next|)
    requires forall m, i | m in x.ns + {x.head} && 0 <= i < |m.next| ::
      m.next[i] == if i < |x.n.next| && m == x.prev[i] then x.n else old(m.next[i])
    ensures forall i | 0 <= i < |x.cs| ::
      Linked(x.head, SplicedAll(x.cs, x.pos, |x.n.next|, x.n)[i], i, x.ns + {x.n})
  {
    hide Linked, Spliced;
    forall i | 0 <= i < |x.cs|
      ensures Linked(x.head, SplicedAll(x.cs, x.pos, |x.n.next|, x.n)[i], i, x.ns + {x.n})
    {
      assert old(Linked(x.head, x.cs[i], i, x.ns));
      var s := x.At(i);
      if i < |x.n.next| {
        SpliceLinked(s);
      } else {
        assert forall m | m in x.ns + {x.head} && i < |m.next| :: m.next[i] == old(m.next[i]);
        Untouched(s);
      }
    }
  }

  lemma InsertedNodes(cs: seq<Chain>, ns: set<Node>, pos: seq<nat>, n: Node)
    requires 1 <= |n.next| <= |cs| == |pos| && forall i | 0 <= i < |n.next| :: pos[i] <= |cs[i]|
    requires forall i, m | 0 <= i < |cs| && m in ns && i < |m.next| :: m in cs[i]
    ensures var r := SplicedAll(cs, pos, |n.next|, n);
      forall i, m | 0 <= i < |r| && m in ns + {n} && i < |m.next| :: m in r[i]
  {
    var r := SplicedAll(cs, pos, |n.next|, n);
    forall i, m | 0 <= i < |r| && m in ns + {n} && i < |m.next|
      ensures m in r[i]
    {
      if m == n {
        assert r[i][pos[i]] == n;
      } else if i < |n.next| {
        InSpliced(cs[i], pos[i], n, m);
      }
    }
  }

  /** The same with the members and the current level. */
  twostate lemma InsertedOk(x: Insertion)
    requires old(ListOk(x.head, x.cs, x.ns, x.maxLevel, x.cur)) && x.cur <= x.newCur <= x.maxLevel
    requires x.n !in x.ns && x.n != x.head && 1 <= |x.n.next| <= x.newCur + 1 && x.n.data == old(x.n.data)
    requires old(Placed(x.head, x.cs, x.ns, x.prev, x.pos, |x.n.next|, x.n.data.key)) && |x.n.next| == old(|x.n.next|)
    requires forall i | 0 <= i < |x.n.next| :: old(i < |x.prev[i].next|) && x.n.next[i] == old(x.prev[i].next[i])
    requires forall m | m in x.ns + {x.head} :: m.data == old(m.data) && |m.next| == old(|m.next|)
    requires forall m, i | m in x.ns + {x.head} && 0 <= i < |m.next| ::
      m.next[i] == if i < |x.n.next| && m == x.prev[i] then x.n else old(m.next[i])
    ensures ListOk(x.head, SplicedAll(x.cs, x.pos, |x.n.next|, x.n), x.ns + {x.n}, x.maxLevel, x.newCur)
  {
    hide Linked, Spliced, Among;
    Inserted(x);
    InsertedNodes(x.cs, x.ns, x.pos, x.n);
  }

  lemma InSpliced(chain: Chain, j: nat, n: Node, m: Node)
    requires j <= |chain| && m in chain
    ensures m in Spliced(chain, j, n)
  {
    assert chain == chain[..j] + chain[j..];
  }

  /** Creates a node and links it in; the levels stay levels where the nodes before it are the right ones. */
  method LinkNew(head: Node, ghost cs: seq<Chain>, ghost ns: set<Node>, ghost maxLevel: nat, ghost cur: nat,
                 ghost cur': nat, prev: seq<Node?>, ghost pos: seq<nat>, level: nat, t: Elem) returns (n: Node)
    requires ListOk(head, cs, ns, maxLevel, cur) && cur <= cur' <= maxLevel && level <= cur' && level < |prev|
    requires forall i | 0 <= i <= level :: prev[i] != null && prev[i] in ns + {head} && i < |prev[i].next|
    modifies head, ns
    ensures fresh(n) && n.data == t && |n.next| == level + 1 && forall m | m in ns :: m.data == old(m.data)
    ensures old(Placed(head, cs, ns, prev, pos, level + 1, t.key)) ==>
      ListOk(head, SplicedAll(cs, pos, level + 1, n), ns + {n}, maxLevel, cur')
    ensures forall i | 0 <= i <= level :: n.next[i] == old(prev[i].next[i])
    ensures forall i | 0 <= i <= level :: i < |prev[i].next| && prev[i].next[i] == n
  {
    hide Linked, Spliced, Among, Divides, ListOk, Placed;
    HeadApart(head, cs, ns, maxLevel, cur);
    n := new Node(level, t);
    label Before:
    LinkIn(prev, n, ns + {head});
    if old(Placed(head, cs, ns, prev, pos, level + 1, t.key)) {
      InsertedOk@Before(Insertion(head, cs, ns, maxLevel, cur, cur', prev, pos, n));
    }
  }

  lemma HeadApart(head: Node, cs: seq<Chain>, ns: set<Node>, maxLevel: nat, cur: nat)
    requires ListOk(head, cs, ns, maxLevel, cur)
    ensures head !in ns
  {
  }

  /** What is found is in the list, and its link is the next node of the level. */
  lemma FoundLinks(head: Node, cs: seq<Chain>, ns: set<Node>, maxLevel: nat, cur: nat,
                   prev: seq<Node?>, pos: seq<nat>, key: int, i: nat)
    requires ListOk(head, cs, ns, maxLevel, cur) && Found(head, cs, ns, cur, prev, pos, key) && i <= cur
    ensures prev[i] != null && prev[i] in ns + {head} && i < |prev[i].next| && pos[i] <= |cs[i]|
    ensures prev[i].next[i] == At(cs[i], pos[i]) && (prev[i].next[i] != null ==> prev[i].next[i] in ns)
    ensures head.next[i] == At(cs[i], 0) && (pos[i] > 0 ==> cs[i][0] in ns && cs[i][0].data.key < key)
    ensures pos[i] == 0 ==> prev[i] == head
    ensures pos[i] == 0 && head.next[i] != null ==> head.next[i] in ns && key <= head.next[i].data.key
  {
    assert Linked(head, cs[i], i, ns) && FoundAt(head, cs[i], ns, prev[i], pos[i], key);
    assert Prev(head, cs[i], 0) == head && Prev(head, cs[i], pos[i]) == prev[i];
  }

  /** The lowest level tells whether a key is in the list. */
  lemma FoundKey(head: Node, cs: seq<Chain>, ns: set<Node>, maxLevel: nat, cur: nat,
                 prev: seq<Node?>, pos: seq<nat>, key: int)
    requires ListOk(head, cs, ns, maxLevel, cur) && Found(head, cs, ns, cur, prev, pos, key)
    ensures var q := At(cs[0], pos[0]);
            (exists n | n in ns :: n.data.key == key) <==> q != null && q in ns && q.data.key == key
  {
    var j := pos[0];
    assert Linked(head, cs[0], 0, ns) && FoundAt(head, cs[0], ns, prev[0], j, key);
    if j == |cs[0]| || cs[0][j].data.key != key {
      Absent(head, cs[0], 0, j, key, ns);
    }
  }

  /** The nodes found, and the head above, are the right ones for a node, unless the level that was the
      highest has a smaller key. */
  lemma FoundPlaces(head: Node, cs: seq<Chain>, ns: set<Node>, maxLevel: nat, cur: nat,
                    prev: seq<Node?>, prev': seq<Node?>, pos: seq<nat>, key: int, level: nat)
    requires ListOk(head, cs, ns, maxLevel, cur) && Found(head, cs, ns, cur, prev, pos, key)
    requires level <= maxLevel && |prev'| == |prev| && forall n | n in ns :: n.data.key != key
    requires forall i | 0 <= i <= level ::
      prev'[i] == if level > cur && cur <= i then head else prev[i]
    requires level > cur ==> pos[cur] == 0
    ensures Placed(head, cs, ns, prev', pos, level + 1, key)
  {
    forall i | 0 <= i <= level
      ensures FoundAt(head, cs[i], ns, prev'[i], pos[i], key)
    {
      if i <= cur {
        assert FoundAt(head, cs[i], ns, prev[i], pos[i], key);
      } else {
        EmptyAbove(head, cs, ns, maxLevel, cur, i);
      }
    }
  }

  /** The previous nodes with the head put in from one level up to another. */
  ghost function Filled(prev: seq<Node?>, head: Node, from: nat, level: nat): (r: seq<Node?>)
    ensures |r| == |prev|
  {
    seq(|prev|, i requires 0 <= i < |prev| => if from <= i <= level then head else prev[i])
  }

  /** Filled from the level above the highest in use, the previous nodes are the right ones whatever the
      level of the new node; filled from the highest level itself, as insert does, they are the right ones
      exactly when that level has no smaller key. */
  lemma HeadFill(head: Node, cs: seq<Chain>, ns: set<Node>, maxLevel: nat, cur: nat,
                 prev: seq<Node?>, pos: seq<nat>, key: int, level: nat)
    requires ListOk(head, cs, ns, maxLevel, cur) && Found(head, cs, ns, cur, prev, pos, key)
    requires level <= maxLevel && forall n | n in ns :: n.data.key != key
    ensures Placed(head, cs, ns, Filled(prev, head, cur + 1, level), pos, level + 1, key)
    ensures level > cur ==>
      (Placed(head, cs, ns, Filled(prev, head, cur, level), pos, level + 1, key)
       <==> forall n | n in cs[cur] :: n in ns && key < n.data.key)
  {
    hide ListOk, Found, Placed, Filled;
    FillAbove(head, cs, ns, maxLevel, cur, prev, pos, key, level);
    if level > cur {
      FillFromHighest(head, cs, ns, maxLevel, cur, prev, pos, key, level);
    }
  }

  lemma FillAbove(head: Node, cs: seq<Chain>, ns: set<Node>, maxLevel: nat, cur: nat,
                  prev: seq<Node?>, pos: seq<nat>, key: int, level: nat)
    requires ListOk(head, cs, ns, maxLevel, cur) && Found(head, cs, ns, cur, prev, pos, key)
    requires level <= maxLevel && forall n | n in ns :: n.data.key != key
    ensures cur < |cs| && Placed(head, cs, ns, Filled(prev, head, cur + 1, level), pos, level + 1, key)
  {
    hide Linked;
    forall i | 0 <= i <= level
      ensures FoundAt(head, cs[i], ns, Filled(prev, head, cur + 1, level)[i], pos[i], key)
    {
      if i <= cur {
        assert FoundAt(head, cs[i], ns, prev[i], pos[i], key);
      } else {
        EmptyAbove(head, cs, ns, maxLevel, cur, i);
      }
    }
  }

  lemma FillFromHighest(head: Node, cs: seq<Chain>, ns: set<Node>, maxLevel: nat, cur: nat,
                        prev: seq<Node?>, pos: seq<nat>, key: int, level: nat)
    requires ListOk(head, cs, ns, maxLevel, cur) && Found(head, cs, ns, cur, prev, pos, key)
    requires cur < level <= maxLevel && forall n | n in ns :: n.data.key != key
    ensures Placed(head, cs, ns, Filled(prev, head, cur, level), pos, level + 1, key)
      <==> forall n | n in cs[cur] :: n in ns && key < n.data.key
  {
    hide Linked;
    var prev' := Filled(prev, head, cur, level);
    assert FoundAt(head, cs[cur], ns, prev[cur], pos[cur], key);
    Tall(head, cs[cur], cur, ns);
    if pos[cur] == 0 {
      FoundPlaces(head, cs, ns, maxLevel, cur, prev, prev', pos, key, level);
    } else {
      assert prev'[cur] == head != Prev(head, cs[cur], pos[cur]);
      assert cs[cur][0] in cs[cur] && cs[cur][0].data.key < key;
      assert !FoundAt(head, cs[cur], ns, prev'[cur], pos[cur], key);
    }
  }

  lemma UniqueKey(head: Node, cs: seq<Chain>, ns: set<Node>, maxLevel: nat, cur: nat, q: Node)
    requires ListOk(head, cs, ns, maxLevel, cur) && q in ns
    ensures forall m | m in ns && m != q :: m.data.key != q.data.key
  {
    assert Linked(head, cs[0], 0, ns);
    assert forall m | m in ns :: m in cs[0];
  }

  /** Replacing an element by an equal one changes no link and no key. */
  method Replace(q: Node, t: Elem, ghost head: Node, ghost cs: seq<Chain>, ghost ns: set<Node>,
                 ghost maxLevel: nat, ghost cur: nat)
    requires ListOk(head, cs, ns, maxLevel, cur) && q in ns && q.data.key == t.key
    modifies q
    ensures ListOk(head, cs, ns, maxLevel, cur) && q.data == t && forall m | m in ns && m != q :: m.data == old(m.data)
    ensures forall m | m in ns && m != q :: m.data.key != t.key
  {
    UniqueKey(head, cs, ns, maxLevel, cur, q);
    hide Linked;
    q.data := t;
    forall i | 0 <= i < |cs|
      ensures Linked(head, cs[i], i, ns)
    {
      assert old(Linked(head, cs[i], i, ns));
      Untouched(Site(head, cs[i], ns, i, 0, q));
      assert ns + {q} == ns;
    }
  }

  /** A list with a node before a smaller one at some level is no list at all. */
  lemma OutOfOrder(head: Node, cs: seq<Chain>, ns: set<Node>, maxLevel: nat, cur: nat, i: nat)
    requires i < |head.next| && head.next[i] != null && i < |head.next[i].next| && head.next[i].next[i] != null
    requires head.next[i].next[i].data.key < head.next[i].data.key
    ensures !ListOk(head, cs, ns, maxLevel, cur)
  {
    hide ListOk;
    if ListOk(head, cs, ns, maxLevel, cur) {
      InOrder(head, cs, ns, maxLevel, cur, i);
    }
  }

  lemma InOrder(head: Node, cs: seq<Chain>, ns: set<Node>, maxLevel: nat, cur: nat, i: nat)
    requires ListOk(head, cs, ns, maxLevel, cur) && i < |head.next| && head.next[i] != null
    ensures var a := head.next[i]; i < |a.next| && (a.next[i] != null ==> a.data.key < a.next[i].data.key)
  {
    assert Linked(head, cs[i], i, ns);
    assert Prev(head, cs[i], 0) == head;
    assert Prev(head, cs[i], 1) == head.next[i];
  }

  // ----- taking a node out

  ghost function Without(chain: Chain, j: nat): (r: Chain)
    requires j < |chain|
    ensures |r| == |chain| - 1
  {
    chain[..j] + chain[j + 1..]
  }

  lemma WithoutAt(head: Node, chain: Chain, j: nat, k: nat)
    requires j < |chain| && k < |chain|
    ensures var r := Without(chain, j);
      && Prev(head, r, k) == (if k <= j then Prev(head, chain, k) else Prev(head, chain, k + 1))
      && At(r, k) == if k < j then At(chain, k) else At(chain, k + 1)
  {
  }

  /** A level stays a level when the node at a position is linked past. */
  twostate lemma CutLinked(s: Site)
    requires old(Linked(s.head, s.chain, s.i, s.ns)) && s.head !in s.ns && s.j < |s.chain| && s.n == s.chain[s.j]
    requires forall m | m in s.ns + {s.head} :: m.data == old(m.data) && |m.next| == old(|m.next|)
    requires forall m | m in s.ns + {s.head} && s.i < |m.next| ::
      m.next[s.i] == old(if m == Prev(s.head, s.chain, s.j) then At(s.chain, s.j + 1) else m.next[s.i])
    ensures Linked(s.head, Without(s.chain, s.j), s.i, s.ns - {s.n})
  {
    hide Without;
    var r := Without(s.chain, s.j);
    CutSorted(s);
    forall k | 0 <= k <= |r|
      ensures var p := Prev(s.head, r, k); s.i < |p.next| && p.next[s.i] == At(r, k)
    {
      WithoutAt(s.head, s.chain, s.j, k);
      var l := if k <= s.j then k else k + 1;
      assert Prev(s.head, s.chain, l) in s.ns + {s.head};
    }
  }

  lemma CutSorted(s: Site)
    requires Among(s.chain, s.ns) && Sorted(s.chain, s.ns) && s.j < |s.chain| && s.n == s.chain[s.j]
    ensures var r := Without(s.chain, s.j); Among(r, s.ns - {s.n}) && Sorted(r, s.ns - {s.n})
  {
    var r := Without(s.chain, s.j);
    forall k | 0 <= k < |r|
      ensures r[k] in s.ns - {s.n}
    {
      assert r[k] == s.chain[if k < s.j then k else k + 1];
    }
  }

  /** The erase loop: at every level the node has, the one before it takes over its link. */
  method LinkPast(prev: seq<Node?>, q: Node, cur: nat, ghost ns: set<Node>)
    requires cur < |prev| && |q.next| <= cur + 1
    requires forall i | 0 <= i <= cur :: prev[i] != null && prev[i] in ns && prev[i] != q && i < |prev[i].next|
    requires forall i | 0 <= i <= cur :: prev[i].next[i] == q <==> i < |q.next|
    modifies ns
    ensures forall m | m in ns :: m.data == old(m.data) && |m.next| == old(|m.next|)
    ensures forall m, i | m in ns && 0 <= i < |m.next| ::
      m.next[i] == old(if i < |q.next| && m == prev[i] then q.next[i] else m.next[i])
  {
    var i := 0;
    while i <= cur
      invariant i <= |q.next| && q.next == old(q.next) && q.data == old(q.data)
      invariant forall m | m in ns :: m.data == old(m.data) && |m.next| == old(|m.next|)
      invariant forall m, l | m in ns && 0 <= l < |m.next| ::
        m.next[l] == old(if l < i && m == prev[l] then q.next[l] else m.next[l])
    {
      if prev[i].next[i] == q {
        prev[i].next := prev[i].next[i := q.next[i]];
      } else {
        break;
      }
      i := i + 1;
    }
  }

  ghost function WithoutAll(cs: seq<Chain>, pos: seq<nat>, height: nat): (r: seq<Chain>)
    requires height <= |cs| <= |pos| && forall i | 0 <= i < height :: pos[i] < |cs[i]|
    ensures |r| == |cs|
  {
    seq(|cs|, i requires 0 <= i < |cs| => if i < height then Without(cs[i], pos[i]) else cs[i])
  }

  /** A node found is at its position at every level it has, and at no other. */
  lemma FoundNode(head: Node, cs: seq<Chain>, ns: set<Node>, maxLevel: nat, cur: nat,
                  prev: seq<Node?>, pos: seq<nat>, key: int, q: Node, i: nat)
    requires ListOk(head, cs, ns, maxLevel, cur) && Found(head, cs, ns, cur, prev, pos, key)
    requires q in ns && q.data.key == key && i <= cur
    ensures prev[i] != null && prev[i] != q && prev[i] in ns + {head} && i < |prev[i].next| && |q.next| <= cur + 1
    ensures prev[i].next[i] == q <==> i < |q.next|
    ensures i < |q.next| ==> pos[i] < |cs[i]| && cs[i][pos[i]] == q && q.next[i] == At(cs[i], pos[i] + 1)
  {
    FoundLinks(head, cs, ns, maxLevel, cur, prev, pos, key, i);
    assert Linked(head, cs[i], i, ns) && FoundAt(head, cs[i], ns, prev[i], pos[i], key);
    if i < |q.next| {
      assert q in cs[i];
      var l :| 0 <= l < |cs[i]| && cs[i][l] == q;
      assert l == pos[i];
      assert Prev(head, cs[i], l + 1) == q;
    } else {
      Tall(head, cs[i], i, ns);
    }
  }

  /** The node is at the position at a level, after the node found and before its own next. */
  ghost predicate Cuts(x: Insertion, i: nat, next: seq<Node?>) {
    && i < |x.cs| && i < |x.pos| && i < |x.prev| && i < |next|
    && x.pos[i] < |x.cs[i]| && x.cs[i][x.pos[i]] == x.n && x.prev[i] == Prev(x.head, x.cs[i], x.pos[i])
    && next[i] == At(x.cs[i], x.pos[i] + 1)
  }

  /** One level of an insertion or erasure. */
  datatype Level = Level(x: Insertion, i: nat)

  /** The erase loop turns a level into a level. */
  twostate lemma ErasedAt(v: Level)
    requires v.i < |v.x.cs| && v.i < |v.x.pos| && v.i < |v.x.prev|
    requires old(Linked(v.x.head, v.x.cs[v.i], v.i, v.x.ns)) && v.x.head !in v.x.ns && v.x.n in v.x.ns
    requires forall m | m in v.x.ns + {v.x.head} :: m.data == old(m.data) && |m.next| == old(|m.next|)
    requires v.i < |v.x.n.next| ==> Cuts(v.x, v.i, old(v.x.n.next))
    requires forall m | m in v.x.ns + {v.x.head} && v.i < |m.next| ::
      m.next[v.i] == old(if v.i < |v.x.n.next| && m == v.x.prev[v.i] then v.x.n.next[v.i] else m.next[v.i])
    ensures v.i < |v.x.n.next| ==> v.x.pos[v.i] < |v.x.cs[v.i]|
    ensures Linked(v.x.head, if v.i < |v.x.n.next| then Without(v.x.cs[v.i], v.x.pos[v.i]) else v.x.cs[v.i], v.i,
                   v.x.ns - {v.x.n})
  {
    hide Linked, Without;
    var s := v.x.At(v.i);
    assert v.x.n in v.x.ns + {v.x.head} && old(|v.x.n.next|) == |v.x.n.next|;
    if v.i < |v.x.n.next| {
      CutLinked(s);
    } else {
      assert v.x.ns + {v.x.n} == v.x.ns;
      Untouched(s);
      Shorter(s);
    }
  }

  /** And all levels into levels. */
  twostate lemma Erased(x: Insertion)
    requires old(ListOk(x.head, x.cs, x.ns, x.maxLevel, x.cur)) && |x.pos| == |x.prev| == |x.cs|
    requires x.n in x.ns && |x.n.next| <= |x.cs|
    requires forall i | 0 <= i < |x.n.next| :: x.pos[i] < |x.cs[i]|
    requires forall i | 0 <= i < |x.n.next| :: Cuts(x, i, old(x.n.next))
    requires forall m | m in x.ns + {x.head} :: m.data == old(m.data) && |m.next| == old(|m.next|)
    requires forall m, i | m in x.ns + {x.head} && 0 <= i < |m.next| ::
      m.next[i] == old(if i < |x.n.next| && m == x.prev[i] then x.n.next[i] else m.next[i])
    ensures forall i | 0 <= i < |x.cs| ::
      Linked(x.head, WithoutAll(x.cs, x.pos, |x.n.next|)[i], i, x.ns - {x.n})
  {
    hide Linked, Without;
    forall i | 0 <= i < |x.cs|
      ensures Linked(x.head, WithoutAll(x.cs, x.pos, |x.n.next|)[i], i, x.ns - {x.n})
    {
      assert old(Linked(x.head, x.cs[i], i, x.ns));
      assert i < |x.n.next| ==> Cuts(x, i, old(x.n.next));
      forall m | m in x.ns + {x.head} && i < |m.next|
        ensures m.next[i] == old(if i < |x.n.next| && m == x.prev[i] then x.n.next[i] else m.next[i])
      {
      }
      ErasedAt(Level(x, i));
    }
  }

  /** A level a node does not reach does not need it. */
  lemma Shorter(s: Site)
    requires Linked(s.head, s.chain, s.i, s.ns) && s.n in s.ns && |s.n.next| <= s.i
    ensures Linked(s.head, s.chain, s.i, s.ns - {s.n})
  {
    Tall(s.head, s.chain, s.i, s.ns);
    assert forall j | 0 <= j < |s.chain| :: s.chain[j] in s.chain;
  }

  lemma ErasedNodes(cs: seq<Chain>, ns: set<Node>, pos: seq<nat>, q: Node)
    requires |q.next| <= |cs| <= |pos|
    requires forall i | 0 <= i < |q.next| :: pos[i] < |cs[i]| && cs[i][pos[i]] == q
    requires forall i, m | 0 <= i < |cs| && m in ns && i < |m.next| :: m in cs[i]
    ensures var r := WithoutAll(cs, pos, |q.next|);
      forall i, m | 0 <= i < |r| && m in ns - {q} && i < |m.next| :: m in r[i]
  {
    var r := WithoutAll(cs, pos, |q.next|);
    forall i, m | 0 <= i < |r| && m in ns - {q} && i < |m.next|
      ensures m in r[i]
    {
      var l :| 0 <= l < |cs[i]| && cs[i][l] == m;
      if i < |q.next| {
        assert l != pos[i];
        assert r[i][if l < pos[i] then l else l - 1] == m;
      }
    }
  }

  /** Finds a node at all its levels, links past it, and leaves the levels of the others. */
  method Unlink(head: Node, prev: seq<Node?>, q: Node, cur: nat, ghost cs: seq<Chain>, ghost ns: set<Node>,
                ghost maxLevel: nat, ghost pos: seq<nat>) returns (ghost cs': seq<Chain>)
    requires ListOk(head, cs, ns, maxLevel, cur) && q in ns && Found(head, cs, ns, cur, prev, pos, q.data.key)
    modifies head, ns
    ensures ListOk(head, cs', ns - {q}, maxLevel, cur) && forall m | m in ns :: m.data == old(m.data)
  {
    hide Linked, Found, ListOk;
    HeadApart(head, cs, ns, maxLevel, cur);
    FoundAll(head, cs, ns, maxLevel, cur, prev, pos, q.data.key);
    FoundNodes(head, cs, ns, maxLevel, cur, prev, pos, q.data.key, q);
    label Before:
    LinkPast(prev, q, cur, ns + {head});
    cs' := WithoutAll(cs, pos, |q.next|);
    ErasedOk@Before(Insertion(head, cs, ns, maxLevel, cur, cur, prev, pos, q));
  }

  lemma FoundNodes(head: Node, cs: seq<Chain>, ns: set<Node>, maxLevel: nat, cur: nat,
                   prev: seq<Node?>, pos: seq<nat>, key: int, q: Node)
    requires ListOk(head, cs, ns, maxLevel, cur) && Found(head, cs, ns, cur, prev, pos, key)
    requires q in ns && q.data.key == key
    ensures |q.next| <= cur + 1
    ensures forall i | 0 <= i <= cur ::
      && prev[i] != null && prev[i] != q && prev[i] in ns + {head} && i < |prev[i].next|
      && (prev[i].next[i] == q <==> i < |q.next|)
    ensures forall i | 0 <= i < |q.next| :: pos[i] < |cs[i]|
    ensures forall i | 0 <= i < |q.next| :: Cuts(Insertion(head, cs, ns, maxLevel, cur, cur, prev, pos, q), i, q.next)
  {
    FoundNode(head, cs, ns, maxLevel, cur, prev, pos, key, q, 0);
    forall i | 0 <= i <= cur
      ensures prev[i] != null && prev[i] != q && prev[i] in ns + {head} && i < |prev[i].next|
      ensures prev[i].next[i] == q <==> i < |q.next|
      ensures i < |q.next| ==> Cuts(Insertion(head, cs, ns, maxLevel, cur, cur, prev, pos, q), i, q.next)
    {
      FoundNode(head, cs, ns, maxLevel, cur, prev, pos, key, q, i);
      assert FoundAt(head, cs[i], ns, prev[i], pos[i], key);
    }
  }

  twostate lemma ErasedOk(x: Insertion)
    requires old(ListOk(x.head, x.cs, x.ns, x.maxLevel, x.cur)) && |x.pos| == |x.prev| == |x.cs|
    requires x.n in x.ns && |x.n.next| <= |x.cs|
    requires forall i | 0 <= i < |x.n.next| :: x.pos[i] < |x.cs[i]|
    requires forall i | 0 <= i < |x.n.next| :: Cuts(x, i, old(x.n.next))
    requires forall m | m in x.ns + {x.head} :: m.data == old(m.data) && |m.next| == old(|m.next|)
    requires forall m, i | m in x.ns + {x.head} && 0 <= i < |m.next| ::
      m.next[i] == old(if i < |x.n.next| && m == x.prev[i] then x.n.next[i] else m.next[i])
    ensures ListOk(x.head, WithoutAll(x.cs, x.pos, |x.n.next|), x.ns - {x.n}, x.maxLevel, x.cur)
  {
    hide Linked, Without, Among;
    Erased(x);
    forall i | 0 <= i < |x.n.next|
      ensures x.cs[i][x.pos[i]] == x.n
    {
      assert Cuts(x, i, old(x.n.next));
    }
    ErasedNodes(x.cs, x.ns, x.pos, x.n);
  }

  /** A level above an empty one is empty. */
  lemma EmptyUp(head: Node, cs: seq<Chain>, ns: set<Node>, maxLevel: nat, cur: nat, i: nat, l: nat)
    requires ListOk(head, cs, ns, maxLevel, cur) && i <= l <= maxLevel
    ensures head.next[i] == null <==> cs[i] == []
    ensures cs[i] == [] ==> cs[l] == []
  {
    assert Linked(head, cs[i], i, ns) && Linked(head, cs[l], l, ns);
    assert Prev(head, cs[i], 0) == head;
    if cs[i] == [] {
      Tall(head, cs[l], l, ns);
    }
  }

  /** With nothing above a level, that level may be the current one. */
  lemma Lowered(head: Node, cs: seq<Chain>, ns: set<Node>, maxLevel: nat, cur: nat, cur': nat)
    requires ListOk(head, cs, ns, maxLevel, cur) && cur' <= cur && forall i | cur' < i <= cur :: cs[i] == []
    ensures ListOk(head, cs, ns, maxLevel, cur')
  {
    hide Linked;
    forall n | n in ns
      ensures |n.next| <= cur' + 1
    {
      assert n in cs[|n.next| - 1];
    }
  }

  class SkipList {
    const maxLevel: nat
    const head: Node
    var curLevel: nat
    ghost var nodes: set<Node>
    ghost var chains: seq<Chain>

    ghost predicate Valid()
      reads this, head, nodes
    {
      ListOk(head, chains, nodes, maxLevel, curLevel)
    }

    ghost function Contents(): (es: set<Elem>)
      reads this, nodes
    {
      set n | n in nodes :: n.data
    }

    /** Fewer than 32 levels asked for are four. */
    constructor (levels: nat)
      requires levels > 0
      ensures Valid() && nodes == {} && curLevel == 0 && fresh(head)
      ensures maxLevel == if levels < 32 then 3 else levels - 1
    {
      var top := if levels - 1 < 31 then 3 else levels - 1;
      maxLevel := top;
      head := new Node(top, Elem(0, 0));
      curLevel := 0;
      nodes, chains := {}, seq(top + 1, _ => []);
    }

    /** find_node: finds the element with the key exactly when there is one. */
    method FindNode(key: int) returns (r: Node?)
      requires Valid()
      ensures r != null ==> r in nodes && r.data.key == key
      ensures r == null ==> forall n | n in nodes :: n.data.key != key
    {
      hide Linked, Among;
      var p, q := head, null;
      ghost var j: nat := 0;
      for i := curLevel + 1 downto 0
        invariant i > 0 ==> Linked(head, chains[i - 1], i - 1, nodes) && j <= |chains[i - 1]|
        invariant i > 0 ==> p == Prev(head, chains[i - 1], j) && Below(chains[i - 1], j, key, nodes)
        invariant i == 0 ==> Among(chains[0], nodes) && Divides(chains[0], j, key, nodes)
        invariant i == 0 ==> j < |chains[0]| ==> chains[0][j].data.key != key
      {
        p, q, j := Walk(p, i, key, head, chains[i], j, nodes);
        if q != null && !(key < q.data.key) {
          return q;
        }
        if i > 0 {
          j := Descend(head, chains, nodes, i, j, key);
        }
      }
      Absent(head, chains[0], 0, j, key, nodes);
      return null;
    }

    /** find_previous_levels_nodes: at every level in use, the last node before the key. The array its callers
        pass has no cell for the last level, so that one is written past its end. */
    method FindPrevious(key: int) returns (prev: seq<Node?>, overrun: bool, ghost pos: seq<nat>)
      requires Valid()
      ensures Found(head, chains, nodes, curLevel, prev, pos, key)
      ensures overrun <==> curLevel == maxLevel
    {
      hide Linked, Among;
      var p, q := head, null;
      prev, pos, overrun := seq(maxLevel + 1, _ => null), seq(maxLevel + 1, _ => 0), false;
      ghost var j: nat := 0;
      for i := curLevel + 1 downto 0
        invariant |prev| == |pos| == maxLevel + 1
        invariant i > 0 ==> Linked(head, chains[i - 1], i - 1, nodes) && j <= |chains[i - 1]|
        invariant i > 0 ==> p == Prev(head, chains[i - 1], j) && Below(chains[i - 1], j, key, nodes)
        invariant forall l | i <= l <= curLevel :: FoundAt(head, chains[l], nodes, prev[l], pos[l], key)
        invariant forall l | curLevel < l <= maxLevel :: pos[l] == 0
        invariant overrun <==> i <= curLevel == maxLevel
      {
        p, q, j := Walk(p, i, key, head, chains[i], j, nodes);
        prev, pos, overrun := prev[i := p], pos[i := j], overrun || i >= maxLevel;
        if i > 0 {
          j := Descend(head, chains, nodes, i, j, key);
        }
      }
    }

    /** Whether a node for an element can be linked in where the insert loop will do it: at the level that
        was the highest, it will put a node that is higher still in front of all others. */
    ghost predicate Fits(t: Elem, level: nat)
      requires Valid()
      reads this, head, nodes
    {
      || level <= curLevel
      || (assert Linked(head, chains[curLevel], curLevel, nodes); chains[curLevel] == [])
      || t.key <= chains[curLevel][0].data.key
      || exists n | n in nodes :: n.data.key == t.key
    }

    /** The first part of insert: an equal element is replaced where there is one. */
    method InsertEqual(t: Elem, q: Node)
      requires Valid() && q in nodes && q.data.key == t.key
      modifies q
      ensures Valid() && Contents() == (set e | e in old(Contents()) && e.key != t.key) + {t}
    {
      hide ListOk;
      Replace(q, t, head, chains, nodes, maxLevel, curLevel);
      assert forall m | m in nodes && m != q :: m.data in old(Contents()) && m.data.key != t.key;
      assert forall e | e in old(Contents()) && e.key != t.key :: exists m | m in nodes && m != q :: m.data == e;
    }

    /** The second part: a new node. */
    method InsertNew(t: Elem, level: nat, found: seq<Node?>, ghost pos: seq<nat>) returns (overrun: bool)
      requires Valid() && level <= maxLevel && Found(head, chains, nodes, curLevel, found, pos, t.key)
      requires forall n | n in nodes :: n.data.key != t.key
      modifies this, head, nodes
      ensures old(level <= curLevel || pos[curLevel] == 0) ==>
        Valid() && Contents() == old(Contents()) + {t} && fresh(nodes - old(nodes))
      ensures forall m | m in old(nodes) :: m.data == old(m.data)
      ensures curLevel == old(curLevel) || curLevel == level > old(curLevel)
      ensures overrun <==> old(curLevel) < level == maxLevel
      ensures old(level > curLevel && pos[curLevel] > 0) ==> nodes == old(nodes) && var i := old(curLevel);
        && i < |head.next| && head.next[i] != null && head.next[i].data == t && i < |head.next[i].next|
        && head.next[i].next[i] == old(head.next[i])
    {
      hide ListOk, Found, Placed;
      ghost var cur := curLevel;
      FoundAll(head, chains, nodes, maxLevel, cur, found, pos, t.key);
      var prev := found;
      overrun := false;
      if level > curLevel {
        for i := curLevel to level + 1
          invariant |prev| == |found|
          invariant forall l | 0 <= l < |prev| :: prev[l] == if curLevel <= l < i then head else found[l]
          invariant overrun <==> maxLevel < i
        {
          prev, overrun := prev[i := head], overrun || i >= maxLevel;
        }
        curLevel := level;
      }
      if level <= cur || pos[cur] == 0 {
        FoundPlaces(head, chains, nodes, maxLevel, cur, found, prev, pos, t.key, level);
      }
      var n := LinkNew(head, chains, nodes, maxLevel, cur, curLevel, prev, pos, level, t);
      if level <= cur || pos[cur] == 0 {
        chains, nodes := SplicedAll(chains, pos, level + 1, n), nodes + {n};
        assert Contents() == old(Contents()) + {t};
      }
    }

    /** insert, for the level that was drawn: adds the element, or replaces the one equal to it, exactly
        when it fits. Otherwise the list is out of order: the new node comes first at the level that was
        the highest, before one that is smaller. It writes past its array of previous nodes exactly when
        the last level is in use, or a new node reaches it. */
    method Insert(t: Elem, level: nat) returns (overrun: bool)
      requires Valid() && level <= maxLevel
      modifies this, head, nodes
      ensures old(Fits(t, level)) ==> Valid() && Contents() == (set e | e in old(Contents()) && e.key != t.key) + {t}
      ensures fresh(nodes - old(nodes)) && (curLevel == old(curLevel) || curLevel == level > old(curLevel))
      ensures overrun <==> old(curLevel) == maxLevel
                           || (level == maxLevel && forall e | e in old(Contents()) :: e.key != t.key)
      ensures !old(Fits(t, level)) ==> var i := old(curLevel);
        && i < |head.next| && head.next[i] != null && head.next[i].data == t && i < |head.next[i].next|
        && head.next[i].next[i] != null && head.next[i].next[i].data.key < t.key
    {
      hide ListOk, Found, Linked, Among;
      var prev, past, pos := FindPrevious(t.key);
      FoundAll(head, chains, nodes, maxLevel, curLevel, prev, pos, t.key);
      FoundLinks(head, chains, nodes, maxLevel, curLevel, prev, pos, t.key, 0);
      FoundKey(head, chains, nodes, maxLevel, curLevel, prev, pos, t.key);
      var q := prev[0].next[0];
      if q != null && !(q.data.key < t.key) && !(t.key < q.data.key) {
        InsertEqual(t, q);
        return past;
      }
      FoundLinks(head, chains, nodes, maxLevel, curLevel, prev, pos, t.key, curLevel);
      var more := InsertNew(t, level, prev, pos);
      overrun := past || more;
      assert forall e | e in old(Contents()) :: e.key != t.key;
    }

    /** The second part as it is meant: the head is filled in from the level above the highest in use. */
    method InsertNewAbove(t: Elem, level: nat, found: seq<Node?>, ghost pos: seq<nat>)
      requires Valid() && level <= maxLevel && Found(head, chains, nodes, curLevel, found, pos, t.key)
      requires forall n | n in nodes :: n.data.key != t.key
      modifies this, head, nodes
      ensures Valid() && Contents() == old(Contents()) + {t} && fresh(nodes - old(nodes))
    {
      hide ListOk, Found, Placed;
      ghost var cur := curLevel;
      FoundAll(head, chains, nodes, maxLevel, cur, found, pos, t.key);
      HeadFill(head, chains, nodes, maxLevel, cur, found, pos, t.key, level);
      var prev := found;
      if level > curLevel {
        for i := curLevel + 1 to level + 1
          invariant |prev| == |found|
          invariant forall l | 0 <= l < |prev| :: prev[l] == if curLevel < l < i then head else found[l]
        {
          prev := prev[i := head];
        }
        curLevel := level;
      }
      assert prev == Filled(found, head, cur + 1, level);
      var n := LinkNew(head, chains, nodes, maxLevel, cur, curLevel, prev, pos, level, t);
      chains, nodes := SplicedAll(chains, pos, level + 1, n), nodes + {n};
      assert Contents() == old(Contents()) + {t};
    }

    /** insert as it is meant: whatever the level that was drawn, the list stays a list, with the element in it
        once. */
    method InsertAbove(t: Elem, level: nat)
      requires Valid() && level <= maxLevel
      modifies this, head, nodes
      ensures Valid() && fresh(nodes - old(nodes))
      ensures Contents() == (set e | e in old(Contents()) && e.key != t.key) + {t}
    {
      hide ListOk, Found, Linked, Among;
      var prev, _, pos := FindPrevious(t.key);
      FoundAll(head, chains, nodes, maxLevel, curLevel, prev, pos, t.key);
      FoundLinks(head, chains, nodes, maxLevel, curLevel, prev, pos, t.key, 0);
      FoundKey(head, chains, nodes, maxLevel, curLevel, prev, pos, t.key);
      var q := prev[0].next[0];
      if q != null && !(q.data.key < t.key) && !(t.key < q.data.key) {
        InsertEqual(t, q);
        return;
      }
      InsertNewAbove(t, level, prev, pos);
      assert forall e | e in old(Contents()) :: e.key != t.key;
    }

    /** erase: takes the element with the key out of every level, and reports whether there was one. It
        writes past its array of previous nodes exactly when the last level is in use. */
    method Erase(key: int) returns (ok: bool, overrun: bool)
      requires Valid()
      modifies this, head, nodes
      ensures Valid() && nodes <= old(nodes)
      ensures Contents() == set e | e in old(Contents()) && e.key != key
      ensures ok <==> exists e | e in old(Contents()) :: e.key == key
      ensures overrun <==> old(curLevel) == maxLevel
      ensures !ok ==> curLevel == old(curLevel)
      ensures ok ==> Lowest(old(curLevel))
    {
      hide ListOk, Found, Linked, Among, Lowest;
      var prev, past, pos := FindPrevious(key);
      FoundAll(head, chains, nodes, maxLevel, curLevel, prev, pos, key);
      FoundLinks(head, chains, nodes, maxLevel, curLevel, prev, pos, key, 0);
      FoundKey(head, chains, nodes, maxLevel, curLevel, prev, pos, key);
      var q := prev[0].next[0];
      if q == null || q.data.key < key || key < q.data.key {
        assert forall e | e in Contents() :: e.key != key;
        return false, past;
      }
      UniqueKey(head, chains, nodes, maxLevel, curLevel, q);
      assert q.data in old(Contents());
      chains := Unlink(head, prev, q, curLevel, chains, nodes, maxLevel, pos);
      nodes := nodes - {q};
      assert forall e | e in old(Contents()) && e.key != key :: exists m | m in nodes :: m.data == e;
      LowerLevel();
      ok, overrun := true, past;
    }

    /** The highest level that is not empty, of those up to one; the first if all are. */
    ghost predicate Lowest(from: nat)
      reads this, head
    {
      && curLevel <= from < |head.next|
      && (curLevel == 0 || head.next[curLevel] != null)
      && forall l | curLevel < l <= from :: head.next[l] == null
    }

    /** The last loop of erase: one level less for every empty one. */
    method LowerLevel()
      requires Valid()
      modifies this`curLevel
      ensures Valid() && Lowest(old(curLevel))
    {
      hide ListOk, Linked;
      ghost var cur := curLevel;
      Bounds(head, chains, nodes, maxLevel, cur);
      var i := curLevel;
      while i > 0
        invariant i <= curLevel <= cur && (curLevel == i || chains[curLevel] != [])
        invariant forall l | curLevel < l <= cur :: chains[l] == []
      {
        EmptyUp(head, chains, nodes, maxLevel, cur, i, curLevel);
        if head.next[i] == null {
          curLevel := curLevel - 1;
        }
        i := i - 1;
      }
      forall l | curLevel <= l <= cur
        ensures head.next[l] == null <==> chains[l] == []
      {
        EmptyUp(head, chains, nodes, maxLevel, cur, l, l);
      }
      Lowered(head, chains, nodes, maxLevel, cur, curLevel);
    }
  }

  lemma Bounds(head: Node, cs: seq<Chain>, ns: set<Node>, maxLevel: nat, cur: nat)
    requires ListOk(head, cs, ns, maxLevel, cur)
    ensures cur <= maxLevel && |cs| == |head.next| == maxLevel + 1
  {
  }

  /** All of what is found at once. */
  lemma FoundAll(head: Node, cs: seq<Chain>, ns: set<Node>, maxLevel: nat, cur: nat,
                 prev: seq<Node?>, pos: seq<nat>, key: int)
    requires ListOk(head, cs, ns, maxLevel, cur) && Found(head, cs, ns, cur, prev, pos, key)
    ensures |prev| == |pos| == |cs| == maxLevel + 1 == |head.next| && cur <= maxLevel
    ensures forall i | 0 <= i <= cur ::
              prev[i] != null && prev[i] in ns + {head} && i < |prev[i].next| && pos[i] <= |cs[i]|
    ensures forall i | cur < i <= maxLevel :: pos[i] <= |cs[i]|
  {
    forall i | 0 <= i <= cur
      ensures prev[i] != null && prev[i] in ns + {head} && i < |prev[i].next| && pos[i] <= |cs[i]|
    {
      FoundLinks(head, cs, ns, maxLevel, cur, prev, pos, key, i);
    }
  }

  /** Two elements are enough: the greater one, drawn one level higher, goes in front of the smaller. */
  method Misplaced() returns (l: SkipList)
    ensures forall cs: seq<Chain>, ns: set<Node>, cur: nat :: !ListOk(l.head, cs, ns, l.maxLevel, cur)
  {
    l := new SkipList(4);
    var _ := l.Insert(Elem(1, 0), 0);
    assert l.Contents() == {Elem(1, 0)};
    OnlyElement(l, Elem(1, 0));
    assert !l.Fits(Elem(5, 0), 1);
    var _ := l.Insert(Elem(5, 0), 1);
    forall cs: seq<Chain>, ns: set<Node>, cur: nat
      ensures !ListOk(l.head, cs, ns, l.maxLevel, cur)
    {
      OutOfOrder(l.head, cs, ns, l.maxLevel, cur, 0);
    }
  }

  lemma OnlyElement(l: SkipList, e: Elem)
    requires l.Valid() && l.Contents() == {e}
    ensures l.chains[0] != [] && l.chains[0][0] in l.nodes && l.chains[0][0].data == e
    ensures forall n | n in l.nodes :: n.data == e
  {
    assert forall n | n in l.nodes :: n.data in l.Contents();
    assert exists n | n in l.nodes :: n.data == e;
    assert Linked(l.head, l.chains[0], 0, l.nodes);
  }
}
