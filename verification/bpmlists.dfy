/** The chains of package-merge in their node pool, and the garbage collector of the pool. */
module BpmLists {
  import opened Bits
  import opened PackageMerge
  import opened LeafSort

  /** A pool cell; the tail is a position in the pool, or NULL. */
  datatype BPMNode = BPMNode(weight: int32, index: nat, tail: int, inUse: bool)

  const NULL: int := -1

  /** The cells from position p on spell out the chain. */
  ghost predicate Spells(mem: seq<BPMNode>, p: int, ch: Chain)
    decreases ch
  {
    if ch.Nil? then p == NULL
    else 0 <= p < |mem| && mem[p].weight == ch.weight && mem[p].index == ch.index && Spells(mem, mem[p].tail, ch.tail)
  }

  /** The cells of a chain. */
  ghost function Cells(mem: seq<BPMNode>, p: int, ch: Chain): set<int>
    requires Spells(mem, p, ch)
    decreases ch
  {
    if ch.Nil? then {} else {p} + Cells(mem, mem[p].tail, ch.tail)
  }

  lemma {:induction false} CellsBound(mem: seq<BPMNode>, p: int, ch: Chain)
    requires Spells(mem, p, ch)
    ensures |Cells(mem, p, ch)| <= Depth(ch)
    ensures forall q :: q in Cells(mem, p, ch) ==> 0 <= q < |mem|
    decreases ch
  {
    if ch.Node? {
      CellsBound(mem, mem[p].tail, ch.tail);
      UnionSize({p}, Cells(mem, mem[p].tail, ch.tail));
    }
  }

  lemma UnionSize(a: set<int>, b: set<int>)
    ensures |a + b| <= |a| + |b|
  {
    assert a + b == a + (b - a);
    assert a !! (b - a);
    Smaller(b - a, b);
  }

  lemma {:induction false} Smaller(a: set<int>, b: set<int>)
    requires a <= b
    ensures |a| <= |b|
  {
    assert b == a + (b - a);
  }

  /** Two pools that agree on these cells. */
  ghost predicate Agree(mem: seq<BPMNode>, mem': seq<BPMNode>, cells: set<int>) {
    |mem| == |mem'| && forall q :: q in cells && 0 <= q < |mem| ==>
      mem[q].weight == mem'[q].weight && mem[q].index == mem'[q].index && mem[q].tail == mem'[q].tail
  }

  lemma {:induction false} SpellsFrame(mem: seq<BPMNode>, mem': seq<BPMNode>, p: int, ch: Chain)
    requires Spells(mem, p, ch) && Agree(mem, mem', Cells(mem, p, ch))
    ensures Spells(mem', p, ch) && Cells(mem', p, ch) == Cells(mem, p, ch)
    decreases ch
  {
    if ch.Node? { SpellsFrame(mem, mem', mem[p].tail, ch.tail); }
  }

  // ---------- all chains of one side

  /** Each list's chain is spelled out and has at most one node for each list from it down. */
  ghost predicate SideOk(mem: seq<BPMNode>, ps: seq<int>, chs: seq<Chain>) {
    |ps| == |chs| && forall c :: 0 <= c < |ps| ==> Spells(mem, ps[c], chs[c]) && Depth(chs[c]) <= c + 1
  }

  ghost function Live(mem: seq<BPMNode>, ps: seq<int>, chs: seq<Chain>, k: nat): set<int>
    requires SideOk(mem, ps, chs) && k <= |ps|
  {
    if k == 0 then {} else Live(mem, ps, chs, k - 1) + Cells(mem, ps[k - 1], chs[k - 1])
  }

  lemma {:induction false} LiveBound(mem: seq<BPMNode>, ps: seq<int>, chs: seq<Chain>, k: nat)
    requires SideOk(mem, ps, chs) && k <= |ps|
    ensures 2 * |Live(mem, ps, chs, k)| <= k * (k + 1)
    ensures forall q :: q in Live(mem, ps, chs, k) ==> 0 <= q < |mem|
  {
    hide Spells, Cells, Depth;
    if k > 0 {
      LiveBound(mem, ps, chs, k - 1);
      CellsBound(mem, ps[k - 1], chs[k - 1]);
      UnionSize(Live(mem, ps, chs, k - 1), Cells(mem, ps[k - 1], chs[k - 1]));
      assert k * (k + 1) == (k - 1) * k + 2 * k;
    }
  }

  lemma {:induction false} LiveHas(mem: seq<BPMNode>, ps: seq<int>, chs: seq<Chain>, k: nat, c: nat)
    requires SideOk(mem, ps, chs) && c < k <= |ps|
    ensures Cells(mem, ps[c], chs[c]) <= Live(mem, ps, chs, k)
  {
    if c < k - 1 { LiveHas(mem, ps, chs, k - 1, c); }
  }

  lemma {:induction false} LiveOnly(mem: seq<BPMNode>, ps: seq<int>, chs: seq<Chain>, k: nat, bound: set<int>)
    requires SideOk(mem, ps, chs) && k <= |ps|
    requires forall c :: 0 <= c < k ==> Cells(mem, ps[c], chs[c]) <= bound
    ensures Live(mem, ps, chs, k) <= bound
  {
    if k > 0 { LiveOnly(mem, ps, chs, k - 1, bound); }
  }

  /** A change outside the live cells leaves all chains as they were. */
  lemma SideFrame(mem: seq<BPMNode>, mem': seq<BPMNode>, ps: seq<int>, chs: seq<Chain>)
    requires SideOk(mem, ps, chs) && Agree(mem, mem', Live(mem, ps, chs, |ps|))
    ensures SideOk(mem', ps, chs)
    ensures forall k :: 0 <= k <= |ps| ==> Live(mem', ps, chs, k) == Live(mem, ps, chs, k)
  {
    forall c | 0 <= c < |ps|
      ensures Spells(mem', ps[c], chs[c]) && Cells(mem', ps[c], chs[c]) == Cells(mem, ps[c], chs[c])
    {
      LiveHas(mem, ps, chs, |ps|, c);
      SpellsFrame(mem, mem', ps[c], chs[c]);
    }
    forall k | 0 <= k <= |ps| ensures Live(mem', ps, chs, k) == Live(mem, ps, chs, k) {
      LiveFrame(mem, mem', ps, chs, k);
    }
  }

  lemma {:induction false} LiveFrame(mem: seq<BPMNode>, mem': seq<BPMNode>, ps: seq<int>, chs: seq<Chain>, k: nat)
    requires SideOk(mem, ps, chs) && SideOk(mem', ps, chs) && k <= |ps|
    requires forall c :: 0 <= c < |ps| ==> Cells(mem', ps[c], chs[c]) == Cells(mem, ps[c], chs[c])
    ensures Live(mem', ps, chs, k) == Live(mem, ps, chs, k)
  {
    if k > 0 { LiveFrame(mem, mem', ps, chs, k - 1); }
  }

  /** Replacing the chain of one list. */
  lemma SideUpdate(mem: seq<BPMNode>, ps: seq<int>, chs: seq<Chain>, c: nat, p: int, ch: Chain)
    requires SideOk(mem, ps, chs) && c < |ps| && Spells(mem, p, ch) && Depth(ch) <= c + 1
    ensures SideOk(mem, ps[c := p], chs[c := ch])
    ensures Live(mem, ps[c := p], chs[c := ch], |ps|) <= Live(mem, ps, chs, |ps|) + Cells(mem, p, ch)
  {
    var ps', chs' := ps[c := p], chs[c := ch];
    forall d | 0 <= d < |ps|
      ensures Cells(mem, ps'[d], chs'[d]) <= Live(mem, ps, chs, |ps|) + Cells(mem, p, ch)
    {
      if d != c { LiveHas(mem, ps, chs, |ps|, d); }
    }
    LiveOnly(mem, ps', chs', |ps|, Live(mem, ps, chs, |ps|) + Cells(mem, p, ch));
  }

  // ---------- the pool

  class BPMLists {
    const memsize: nat
    const listsize: nat
    const memory: array<BPMNode>
    const freelist: array<int>
    const chains0: array<int>
    const chains1: array<int>
    var numfree: nat
    var nextfree: nat
    ghost var s: Lists

    ghost function Frame(): set<object> {
      {this, memory, freelist, chains0, chains1}
    }

    ghost predicate ShapeOk()
      reads this
    {
      && memsize == 2 * (listsize * (listsize + 1))
      && memory.Length == freelist.Length == memsize
      && chains0.Length == chains1.Length == listsize
      && chains0 != chains1 && freelist != chains0 && freelist != chains1
      && Shaped(s) && |s.c0| == listsize
    }

    ghost predicate ChainsOk()
      reads this, memory, chains0, chains1
    {
      && ShapeOk()
      && SideOk(memory[..], chains0[..], s.c0)
      && SideOk(memory[..], chains1[..], s.c1)
    }

    /** The cells reachable from the chains. */
    ghost function Reach(): set<int>
      requires ChainsOk()
      reads this, memory, chains0, chains1
    {
      Live(memory[..], chains0[..], s.c0, listsize) + Live(memory[..], chains1[..], s.c1, listsize)
    }

    /** No free cell is reachable. */
    ghost predicate Valid()
      reads this, memory, chains0, chains1, freelist
    {
      ChainsOk() && FreeOk(freelist[..], nextfree, numfree, memsize, Reach())
    }

    /** At most half the pool is ever in use. */
    lemma ReachBound()
      requires ChainsOk()
      ensures |Reach()| <= listsize * (listsize + 1)
      ensures forall q :: q in Reach() ==> 0 <= q < memsize
    {
      var mem, p0, p1 := memory[..], chains0[..], chains1[..];
      LiveBound(mem, p0, s.c0, listsize);
      LiveBound(mem, p1, s.c1, listsize);
      UnionSize(Live(mem, p0, s.c0, listsize), Live(mem, p1, s.c1, listsize));
    }

    /** Marks the cells of one chain. */
    static method MarkChain(memory: array<BPMNode>, start: int, ghost ch: Chain)
      requires Spells(memory[..], start, ch)
      modifies memory
      ensures SameNodes(old(memory[..]), memory[..])
      ensures Marked(memory[..]) == old(Marked(memory[..])) + old(Cells(memory[..], start, ch))
    {
      ghost var was := memory[..];
      ghost var goal := Marked(was) + Cells(was, start, ch);
      ghost var rest := ch;
      var node := start;
      while node != NULL
        invariant SameNodes(was, memory[..]) && Spells(was, node, rest)
        invariant Marked(memory[..]) + Cells(was, node, rest) == goal
        decreases rest
      {
        ghost var now := memory[..];
        memory[node] := memory[node].(inUse := true);
        assert memory[..] == now[node := now[node].(inUse := true)];
        MarkOne(now, node);
        node := memory[node].tail;
        rest := rest.tail;
      }
    }

    /** Marks what is reachable and puts everything else on the free list. */
    method Collect()
      requires ChainsOk()
      modifies this`numfree, this`nextfree, memory, freelist
      ensures Valid() && s == old(s) && SameNodes(old(memory[..]), memory[..])
      ensures Reach() == old(Reach()) && nextfree == 0
      ensures numfree == memsize - |Reach()| >= listsize * (listsize + 1)
      ensures unchanged(chains0) && unchanged(chains1)
    {
      ghost var was := memory[..];
      ghost var p0, p1 := chains0[..], chains1[..];
      MarkAll(p0, p1);
      ghost var mem := memory[..];
      SideSame(was, mem, p0, s.c0);
      SideSame(was, mem, p1, s.c1);
      numfree := FillFreeList(memory, freelist);
      nextfree := 0;
      ReachBound();
    }

    method MarkAll(ghost p0: seq<int>, ghost p1: seq<int>)
      requires ChainsOk() && p0 == chains0[..] && p1 == chains1[..]
      modifies memory
      ensures SameNodes(old(memory[..]), memory[..])
      ensures Marked(memory[..]) == old(Reach())
    {
      ghost var was := memory[..];
      hide Marked, Depth, Spells, Shaped, Cells;
      ClearMarks(memory);
      for i := 0 to listsize
        invariant SameNodes(was, memory[..])
        invariant Marked(memory[..]) == Live(was, p0, s.c0, i) + Live(was, p1, s.c1, i)
      {
        MarkList(was, i);
      }
    }

    method MarkList(ghost was: seq<BPMNode>, c: nat)
      requires ShapeOk() && c < listsize && SideOk(was, chains0[..], s.c0) && SideOk(was, chains1[..], s.c1)
      requires SameNodes(was, memory[..])
      modifies memory
      ensures SameNodes(was, memory[..])
      ensures Marked(memory[..])
        == old(Marked(memory[..])) + Cells(was, chains0[c], s.c0[c]) + Cells(was, chains1[c], s.c1[c])
    {
      hide Marked, Spells, Depth, Cells, Shaped;
      CellsSame(was, memory[..], chains0[c], s.c0[c]);
      MarkChain(memory, chains0[c], s.c0[c]);
      CellsSame(was, memory[..], chains1[c], s.c1[c]);
      MarkChain(memory, chains1[c], s.c1[c]);
    }

    static method ClearMarks(memory: array<BPMNode>)
      modifies memory
      ensures SameNodes(old(memory[..]), memory[..])
      ensures Marked(memory[..]) == {}
    {
      for i := 0 to memory.Length
        invariant SameNodes(old(memory[..]), memory[..])
        invariant forall j :: 0 <= j < i ==> !memory[j].inUse
      {
        memory[i] := memory[i].(inUse := false);
      }
    }

    static method FillFreeList(memory: array<BPMNode>, freelist: array<int>) returns (numfree: nat)
      requires memory.Length == freelist.Length
      modifies freelist
      ensures numfree + |Marked(memory[..])| == memory.Length
      ensures FreeOk(freelist[..], 0, numfree, memory.Length, Marked(memory[..]))
    {
      numfree := 0;
      ghost var mem := memory[..];
      MarkedCounts(mem);
      for i := 0 to memory.Length
        invariant 0 <= numfree <= i && numfree + |MarkedBelow(mem, i)| == i
        invariant forall j :: 0 <= j < numfree ==> 0 <= freelist[j] < i && !mem[freelist[j]].inUse
        invariant forall j, k :: 0 <= j < k < numfree ==> freelist[j] < freelist[k]
      {
        if !memory[i].inUse {
          freelist[numfree] := i;
          numfree := numfree + 1;
        }
      }
    }

    /** Collects if the free list is used up. */
    method FindFree()
      requires Valid() && listsize > 0
      modifies this`numfree, this`nextfree, memory, freelist
      ensures Valid() && nextfree < numfree && s == old(s) && Reach() == old(Reach())
      ensures SameNodes(old(memory[..]), memory[..]) && unchanged(chains0) && unchanged(chains1)
    {
      if nextfree >= numfree {
        Collect();
        SizePositive(listsize);
      }
    }

    /** A new node. No cell reachable from the chains, or from the tail given, is handed out. */
    method Create(weight: int32, index: nat, tail: int, ghost ch: Chain) returns (p: int)
      requires Valid() && Spells(memory[..], tail, ch) && Cells(memory[..], tail, ch) <= Reach()
      requires listsize > 0
      modifies this`numfree, this`nextfree, memory, freelist
      ensures Valid() && s == old(s) && Reach() == old(Reach())
      ensures unchanged(chains0) && unchanged(chains1)
      ensures p !in Reach() && Spells(memory[..], p, Node(weight, index, ch))
      ensures Cells(memory[..], p, Node(weight, index, ch)) <= Reach() + {p}
      ensures FreeOk(freelist[..], nextfree, numfree, memsize, Reach() + {p})
    {
      ghost var was := memory[..];
      FindFree();
      ghost var now := memory[..];
      CellsSame(was, now, tail, ch);
      p := freelist[nextfree];
      nextfree := nextfree + 1;
      memory[p] := BPMNode(weight, index, tail, memory[p].inUse);
      ghost var mem := memory[..];
      assert mem == now[p := BPMNode(weight, index, tail, now[p].inUse)];
      NewCell(now, mem, chains0[..], s.c0, p);
      NewCell(now, mem, chains1[..], s.c1, p);
      SpellsFrame(now, mem, tail, ch);
    }

    /** The head of list c moves to the first side, and a new node heads the second. */
    method PushHead(c: nat, weight: int32, index: nat, tail: int, ghost ch: Chain)
      requires Valid() && c < listsize
      requires Spells(memory[..], tail, ch) && Depth(ch) <= c
      requires Cells(memory[..], tail, ch) <= Live(memory[..], chains1[..], s.c1, listsize)
      modifies Frame()
      ensures Valid()
      ensures s == Pushed(old(s), c, Node(weight, index, ch))
    {
      hide Spells, Cells, Live, FreeOk;
      ghost var was, p0, p1, live := s, chains0[..], chains1[..], Reach();
      LiveHas(memory[..], p1, s.c1, listsize, c);
      SideUpdate(memory[..], p0, s.c0, c, chains1[c], s.c1[c]);
      chains0[c] := chains1[c];
      assert chains0[..] == p0[c := p1[c]];
      s := s.(c0 := s.c0[c := s.c1[c]]);
      FreeLess(freelist[..], nextfree, numfree, memsize, live, Reach());
      live := Reach();
      var p := Create(weight, index, tail, ch);
      SideUpdate(memory[..], chains1[..], s.c1, c, p, Node(weight, index, ch));
      chains1[c] := p;
      assert chains1[..] == p1[c := p];
      s := s.(c1 := s.c1[c := Node(weight, index, ch)], asked := s.asked[c := s.asked[c] + 1]);
      FreeLess(freelist[..], nextfree, numfree, memsize, live + {p}, Reach());
    }

    /** The next item of list c: a leaf, or a package of the two items at hand below. The sum of
        their weights is an int of the source. */
    method TakeItem(leaves: array<Leaf>, numpresent: nat, c: nat, ghost w: seq<int>) returns (package: bool)
      requires Valid() && c < listsize && numpresent == |w| <= leaves.Length
      requires Sorted(w) && WeightsFit(w) && AllOk(w, s, c) && WeightsOk(w, s, c)
      requires forall i :: 0 <= i < numpresent ==> leaves[i].weight == w[i]
      modifies Frame()
      ensures Valid() && s == Head(w, old(s), c)
      ensures package == TakesPackage(w, old(s), c)
    {
      hide ListOk, WeightOk, PairOk, Spells, Cells, Live, FreeOk, SideOk, Depth, Sorted;
      HeadCell(c);
      LeavesFit(w);
      var lastindex := memory[chains1[c]].index;
      package := false;
      if c > 0 {
        HeadCell(c - 1);
        SumFits(w, s, c - 1);
        var sum: int32 := memory[chains0[c - 1]].weight + memory[chains1[c - 1]].weight;
        if !(lastindex < numpresent && sum > leaves[lastindex].weight) {
          PushHead(c, sum, lastindex, chains1[c - 1], s.c1[c - 1]);
          return true;
        }
      } else if lastindex >= numpresent {
        s := s.(asked := s.asked[c := s.asked[c] + 1]);
        return;
      }
      TakeLeaf(c, leaves[lastindex].weight, lastindex);
    }

    method TakeLeaf(c: nat, weight: int32, lastindex: nat)
      requires Valid() && c < listsize
      modifies Frame()
      ensures Valid()
      ensures s == Pushed(old(s), c, Node(weight, lastindex + 1, if c == 0 then Nil else old(s.c1[c].tail)))
    {
      if c == 0 {
        PushHead(c, weight, lastindex + 1, NULL, Nil);
      } else {
        HeadCell(c);
        PushHead(c, weight, lastindex + 1, memory[chains1[c]].tail, s.c1[c].tail);
      }
    }

    /** One step of boundary package-merge on list c. */
    method BoundaryPM(leaves: array<Leaf>, numpresent: nat, c: nat, num: nat, ghost w: seq<int>)
      requires Valid() && c < listsize && numpresent == |w| <= leaves.Length
      requires Sorted(w) && WeightsFit(w) && AllOk(w, s, c) && WeightsOk(w, s, c) && s.asked[c] < 2 * |w| - 2
      requires forall i :: 0 <= i < numpresent ==> leaves[i].weight == w[i]
      modifies Frame()
      ensures Valid() && s == Step(w, old(s), c, num + 1 >= 2 * numpresent - 2)
      decreases c, 0
    {
      ghost var was := s;
      var package := TakeItem(leaves, numpresent, c, w);
      if package && num + 1 < 2 * numpresent - 2 {
        ReplenishWeights(w, was, c);
        Replenish(leaves, numpresent, c - 1, num, w);
      }
    }

    /** The two steps that make up for the two items a package has used. */
    method Replenish(leaves: array<Leaf>, numpresent: nat, c: nat, num: nat, ghost w: seq<int>)
      requires Valid() && c < listsize && numpresent == |w| <= leaves.Length && num + 1 < 2 * numpresent - 2
      requires Sorted(w) && WeightsFit(w) && AllOk(w, s, c) && WeightsOk(w, s, c) && s.asked[c] + 2 <= 2 * |w| - 2
      requires forall i :: 0 <= i < numpresent ==> leaves[i].weight == w[i]
      modifies Frame()
      ensures Valid() && s == Step(w, Step(w, old(s), c, false), c, false)
      decreases c, 1
    {
      StepOk(w, s, c);
      StepWeights(w, s, c);
      BoundaryPM(leaves, numpresent, c, num, w);
      BoundaryPM(leaves, numpresent, c, num, w);
    }

    /** What the head cells of list c hold. */
    lemma HeadCell(c: nat)
      requires Valid() && c < listsize
      ensures 0 <= chains0[c] < memsize && memory[chains0[c]].weight == s.c0[c].weight
      ensures 0 <= chains1[c] < memsize
      ensures var cell := memory[chains1[c]];
        && cell.weight == s.c1[c].weight && cell.index == s.c1[c].index
        && Spells(memory[..], cell.tail, s.c1[c].tail) && Depth(s.c1[c].tail) <= c
        && Cells(memory[..], cell.tail, s.c1[c].tail) <= Live(memory[..], chains1[..], s.c1, listsize)
      ensures Spells(memory[..], chains1[c], s.c1[c]) && Depth(s.c1[c]) <= c + 1
      ensures Cells(memory[..], chains1[c], s.c1[c]) <= Live(memory[..], chains1[..], s.c1, listsize)
    {
      var mem, p0, p1 := memory[..], chains0[..], chains1[..];
      assert Spells(mem, p0[c], s.c0[c]) && Spells(mem, p1[c], s.c1[c]);
      LiveHas(mem, p1, s.c1, listsize, c);
    }

    /** The pool with its first two cells made and every list headed by them. */
    constructor (maxbitlen: nat, first: Leaf, second: Leaf, ghost w: seq<int>)
      requires 0 < first.weight < 0x8000_0000 && 0 < second.weight < 0x8000_0000
      requires maxbitlen > 0 && |w| >= 2 && w[0] == first.weight && w[1] == second.weight
      ensures Valid() && s == Init(w, maxbitlen) && listsize == maxbitlen
      ensures fresh(memory) && fresh(freelist) && fresh(chains0) && fresh(chains1)
    {
      hide Spells, Cells, Live, Depth, SideOk, Init;
      listsize := maxbitlen;
      var size := 2 * (maxbitlen * (maxbitlen + 1));
      memsize := size;
      SizeAtLeast(maxbitlen);
      nextfree, numfree := 0, size;
      memory := new BPMNode[size](_ => BPMNode(0, 0, NULL, false));
      freelist := new int[size](i => i);
      // every list starts with the first two cells that are handed out
      chains0 := new int[maxbitlen](_ => 0);
      chains1 := new int[maxbitlen](_ => 1);
      s := Init(w, maxbitlen);
      new;
      var a := freelist[nextfree];
      nextfree := nextfree + 1;
      memory[a] := BPMNode(first.weight, 1, NULL, memory[a].inUse);
      var b := freelist[nextfree];
      nextfree := nextfree + 1;
      memory[b] := BPMNode(second.weight, 2, NULL, memory[b].inUse);
      InitialState(w);
    }

    lemma InitialState(w: seq<int>)
      requires ShapeOk() && |w| >= 2 && memsize >= 4 && s == Init(w, listsize)
      requires forall c :: 0 <= c < listsize ==> chains0[c] == 0 && chains1[c] == 1
      requires memory[0].weight == w[0] && memory[0].index == 1 && memory[0].tail == NULL
      requires memory[1].weight == w[1] && memory[1].index == 2 && memory[1].tail == NULL
      ensures ChainsOk() && Reach() <= {0, 1}
    {
      var mem := memory[..];
      OneCell(mem, 0, Node(w[0], 1, Nil), chains0[..], s.c0);
      OneCell(mem, 1, Node(w[1], 2, Nil), chains1[..], s.c1);
    }
  }

  /** A side on which every list has the same one-cell chain. */
  lemma OneCell(mem: seq<BPMNode>, p: nat, ch: Chain, ps: seq<int>, chs: seq<Chain>)
    requires ch.Node? && ch.tail.Nil? && |ps| == |chs|
    requires p < |mem| && mem[p].weight == ch.weight && mem[p].index == ch.index && mem[p].tail == NULL
    requires forall c :: 0 <= c < |ps| ==> ps[c] == p && chs[c] == ch
    ensures SideOk(mem, ps, chs) && Live(mem, ps, chs, |ps|) <= {p}
  {
    assert Spells(mem, NULL, Nil) && Cells(mem, NULL, Nil) == {} && Depth(Nil) == 0;
    LiveOnly(mem, ps, chs, |ps|, {p});
  }

  lemma NewCell(mem: seq<BPMNode>, mem': seq<BPMNode>, ps: seq<int>, chs: seq<Chain>, p: int)
    requires SideOk(mem, ps, chs) && 0 <= p < |mem| && p !in Live(mem, ps, chs, |ps|)
    requires |mem'| == |mem| && mem' == mem[p := mem'[p]]
    ensures SideOk(mem', ps, chs) && Live(mem', ps, chs, |ps|) == Live(mem, ps, chs, |ps|)
  {
    SideFrame(mem, mem', ps, chs);
  }

  lemma SizeAtLeast(n: nat)
    requires n > 0
    ensures n * (n + 1) >= 2
  {
    assert n * (n + 1) == n * n + n;
  }

  lemma SizePositive(n: nat)
    requires n > 0
    ensures n * (n + 1) > 0
  {
    assert n * (n + 1) == n * n + n;
  }

  ghost predicate SameNodes(mem: seq<BPMNode>, mem': seq<BPMNode>) {
    |mem| == |mem'| && forall q :: 0 <= q < |mem| ==>
      mem[q].weight == mem'[q].weight && mem[q].index == mem'[q].index && mem[q].tail == mem'[q].tail
  }

  lemma CellsSame(mem: seq<BPMNode>, mem': seq<BPMNode>, p: int, ch: Chain)
    requires SameNodes(mem, mem') && Spells(mem, p, ch)
    ensures Spells(mem', p, ch) && Cells(mem', p, ch) == Cells(mem, p, ch)
  {
    SpellsFrame(mem, mem', p, ch);
  }

  lemma SideSame(mem: seq<BPMNode>, mem': seq<BPMNode>, ps: seq<int>, chs: seq<Chain>)
    requires SameNodes(mem, mem') && SideOk(mem, ps, chs)
    ensures SideOk(mem', ps, chs) && Live(mem', ps, chs, |ps|) == Live(mem, ps, chs, |ps|)
  {
    SideFrame(mem, mem', ps, chs);
  }

  ghost function MarkedBelow(mem: seq<BPMNode>, n: nat): set<int>
    requires n <= |mem|
  {
    set q | 0 <= q < n && mem[q].inUse
  }

  ghost function Marked(mem: seq<BPMNode>): set<int> {
    MarkedBelow(mem, |mem|)
  }

  lemma MarkedCounts(mem: seq<BPMNode>)
    ensures |MarkedBelow(mem, 0)| == 0
    ensures forall i :: 0 <= i < |mem| ==>
      |MarkedBelow(mem, i + 1)| == |MarkedBelow(mem, i)| + (if mem[i].inUse then 1 else 0)
  {
    assert MarkedBelow(mem, 0) == {};
    forall i | 0 <= i < |mem|
      ensures |MarkedBelow(mem, i + 1)| == |MarkedBelow(mem, i)| + (if mem[i].inUse then 1 else 0)
    {
      assert MarkedBelow(mem, i + 1) == MarkedBelow(mem, i) + (if mem[i].inUse then {i} else {});
    }
  }

  lemma MarkOne(mem: seq<BPMNode>, p: int)
    requires 0 <= p < |mem|
    ensures Marked(mem[p := mem[p].(inUse := true)]) == Marked(mem) + {p}
  {
  }

  /** The free list from `next` on: distinct cells, none of them live. */
  ghost predicate FreeOk(fl: seq<int>, next: nat, num: nat, size: nat, live: set<int>) {
    && next <= num <= |fl|
    && (forall i :: next <= i < num ==> 0 <= fl[i] < size && fl[i] !in live)
    && (forall i, j :: next <= i < j < num ==> fl[i] != fl[j])
  }

  lemma FreeLess(fl: seq<int>, next: nat, num: nat, size: nat, live: set<int>, less: set<int>)
    requires FreeOk(fl, next, num, size, live) && less <= live
    ensures FreeOk(fl, next, num, size, less)
  {
  }
}
