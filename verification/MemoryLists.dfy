/** The two descriptor tables as one array of records, threaded as two doubly
    linked lists.  A pointer is a slot number; the free-block table takes the
    slots below MBD_COUNT and the used-block table the slots above. */
module MemoryLists {
  import opened Machine
  import opened MemorySpec
  import opened Sequences

  const NULL: int := -1

  datatype Mbd = Mbd(used: bool, start: u32, length: u32, prev: int, next: int)

  type Table = seq<Mbd>

  ghost predicate Within(nodes: seq<int>, lo: int, hi: int) {
    forall i :: 0 <= i < |nodes| ==> lo <= nodes[i] < hi
  }

  /** The prev and next fields of the nodes, the head and the foot thread exactly these nodes. */
  ghost predicate Links(t: Table, head: int, foot: int, nodes: seq<int>) {
    && Within(nodes, 0, |t|)
    && (if nodes == [] then head == NULL && foot == NULL else head == nodes[0] && foot == nodes[|nodes| - 1])
    && (forall i {:trigger t[nodes[i]]} :: 0 <= i < |nodes| ==>
          && t[nodes[i]].prev == (if i == 0 then NULL else nodes[i - 1])
          && t[nodes[i]].next == (if i == |nodes| - 1 then NULL else nodes[i + 1]))
  }

  /** The slots from lo to hi whose used flag is set are exactly the nodes. */
  ghost predicate Flags(t: Table, nodes: seq<int>, lo: int, hi: int) {
    && 0 <= lo <= hi <= |t|
    && Within(nodes, lo, hi)
    && Distinct(nodes)
    && forall k :: lo <= k < hi ==> (t[k].used <==> k in nodes)
  }

  function BlockOf(m: Mbd): Block {
    Block(m.start, m.length)
  }

  ghost function BlockAt(t: Table, k: int): Block {
    if 0 <= k < |t| then BlockOf(t[k]) else Block(0, 0)
  }

  ghost function Blocks(t: Table, nodes: seq<int>): (bs: seq<Block>)
    ensures |bs| == |nodes|
  {
    seq(|nodes|, i requires 0 <= i < |nodes| => BlockAt(t, nodes[i]))
  }

  // ------------------------------------------------------------- traversals

  /** At most `fuel` nodes met from p along next. */
  ghost function Forward(t: Table, p: int, fuel: nat): seq<int>
    decreases fuel
  {
    if fuel == 0 || !(0 <= p < |t|) then [] else [p] + Forward(t, t[p].next, fuel - 1)
  }

  /** At most `fuel` nodes met from p along prev. */
  ghost function Backward(t: Table, p: int, fuel: nat): seq<int>
    decreases fuel
  {
    if fuel == 0 || !(0 <= p < |t|) then [] else [p] + Backward(t, t[p].prev, fuel - 1)
  }

  function Reverse<T>(s: seq<T>): seq<T> {
    if s == [] then [] else Reverse(s[1..]) + [s[0]]
  }

  lemma {:induction false} ForwardFrom(t: Table, head: int, foot: int, nodes: seq<int>, i: nat, fuel: nat)
    requires Links(t, head, foot, nodes) && i <= |nodes| && fuel >= |nodes| - i
    ensures Forward(t, if i == |nodes| then NULL else nodes[i], fuel) == nodes[i..]
    decreases |nodes| - i
  {
    if i < |nodes| {
      ForwardFrom(t, head, foot, nodes, i + 1, fuel - 1);
    }
  }

  lemma {:induction false} BackwardFrom(t: Table, head: int, foot: int, nodes: seq<int>, i: nat, fuel: nat)
    requires Links(t, head, foot, nodes) && i <= |nodes| && fuel >= i
    ensures Backward(t, if i == 0 then NULL else nodes[i - 1], fuel) == Reverse(nodes[..i])
  {
    if i > 0 {
      BackwardFrom(t, head, foot, nodes, i - 1, fuel - 1);
      ReverseSnoc(nodes[..i - 1], nodes[i - 1]);
      assert nodes[..i] == nodes[..i - 1] + [nodes[i - 1]];
    }
  }

  lemma {:induction false} ReverseSnoc<T>(s: seq<T>, x: T)
    ensures Reverse(s + [x]) == [x] + Reverse(s)
  {
    if s != [] {
      ReverseSnoc(s[1..], x);
      assert (s + [x])[1..] == s[1..] + [x];
    } else {
      assert Reverse([x]) == Reverse([x][1..]) + [x];
    }
  }

  /** However long one walks, the forward walk from the head meets each node once and the
      backward walk from the foot meets them in the opposite order. */
  lemma WalksAgree(t: Table, head: int, foot: int, nodes: seq<int>, fuel: nat)
    requires Links(t, head, foot, nodes) && fuel >= |nodes|
    ensures Forward(t, head, fuel) == nodes
    ensures Backward(t, foot, fuel) == Reverse(nodes)
  {
    ForwardFrom(t, head, foot, nodes, 0, fuel);
    BackwardFrom(t, head, foot, nodes, |nodes|, fuel);
    assert nodes[..|nodes|] == nodes && nodes[0..] == nodes;
  }

  // --------------------------------------------------------- append, remove

  function SetPrev(t: Table, k: int, p: int): (t': Table)
    ensures |t'| == |t|
  {
    if 0 <= k < |t| then t[k := t[k].(prev := p)] else t
  }

  function SetNext(t: Table, k: int, p: int): (t': Table)
    ensures |t'| == |t|
  {
    if 0 <= k < |t| then t[k := t[k].(next := p)] else t
  }

  function Appended(t: Table, head: int, foot: int, m: int): (t': Table)
    ensures |t'| == |t|
  {
    if head == NULL then SetNext(SetPrev(t, m, NULL), m, NULL)
    else SetNext(SetPrev(SetNext(t, foot, m), m, foot), m, NULL)
  }

  function Removed(t: Table, head: int, foot: int, m: int): (t': Table)
    requires 0 <= m < |t|
    ensures |t'| == |t|
  {
    if head == m && foot == m then t
    else if head == m then SetPrev(t, t[m].next, NULL)
    else if foot == m then SetNext(t, t[m].prev, NULL)
    else
      var t1 := SetNext(t, t[m].prev, t[m].next);
      SetPrev(t1, t1[m].next, t1[m].prev)
  }

  function RemovedHead(t: Table, head: int, foot: int, m: int): int
    requires 0 <= m < |t|
  {
    if head != m then head else if foot == m then NULL else t[m].next
  }

  function RemovedFoot(t: Table, head: int, foot: int, m: int): int
    requires 0 <= m < |t|
  {
    if foot != m then foot else if head == m then NULL else t[m].prev
  }

  lemma NodeAt(t: Table, head: int, foot: int, nodes: seq<int>, j: nat)
    requires Links(t, head, foot, nodes) && j < |nodes|
    ensures Within(nodes, 0, |t|) && 0 <= nodes[j] < |t| && |Blocks(t, nodes)| == |nodes|
    ensures Blocks(t, nodes)[j] == BlockOf(t[nodes[j]])
    ensures t[nodes[j]].prev == if j == 0 then NULL else nodes[j - 1]
    ensures t[nodes[j]].next == if j == |nodes| - 1 then NULL else nodes[j + 1]
  {
  }

  lemma ListEnds(t: Table, head: int, foot: int, nodes: seq<int>)
    requires Links(t, head, foot, nodes)
    ensures Within(nodes, 0, |t|) && |Blocks(t, nodes)| == |nodes|
    ensures head == if nodes == [] then NULL else nodes[0]
  {
  }

  lemma LinksFrame(t: Table, t': Table, head: int, foot: int, nodes: seq<int>)
    requires Links(t, head, foot, nodes) && |t'| == |t|
    requires forall i :: 0 <= i < |nodes| ==>
                           t'[nodes[i]].prev == t[nodes[i]].prev && t'[nodes[i]].next == t[nodes[i]].next
    ensures Links(t', head, foot, nodes)
  {
  }

  lemma AppendLinks(t: Table, head: int, foot: int, nodes: seq<int>, m: int)
    requires Links(t, head, foot, nodes) && Distinct(nodes) && 0 <= m < |t| && m !in nodes
    ensures Links(Appended(t, head, foot, m), if nodes == [] then m else head, m, nodes + [m])
    ensures Distinct(nodes + [m])
  {
  }

  lemma RemoveDistinct(nodes: seq<int>, i: nat)
    requires Distinct(nodes) && i < |nodes|
    ensures Distinct(RemoveAt(nodes, i))
    ensures forall k :: k in RemoveAt(nodes, i) <==> k in nodes && k != nodes[i]
  {
    var r := RemoveAt(nodes, i);
    forall k | k in nodes && k != nodes[i]
      ensures k in r
    {
      var j :| 0 <= j < |nodes| && nodes[j] == k;
      assert r[if j < i then j else j - 1] == k;
    }
  }

  /** The ends of the list and the links of node i say the same about where i is. */
  lemma NodeEnds(t: Table, head: int, foot: int, nodes: seq<int>, i: nat)
    requires Links(t, head, foot, nodes) && Distinct(nodes) && i < |nodes|
    ensures head == nodes[i] <==> i == 0
    ensures foot == nodes[i] <==> i == |nodes| - 1
    ensures i > 0 ==> t[nodes[i]].prev == nodes[i - 1] && 0 <= nodes[i - 1] < |t|
    ensures i < |nodes| - 1 ==> t[nodes[i]].next == nodes[i + 1] && 0 <= nodes[i + 1] < |t|
  {
  }

  lemma RemovedLinkAt(t: Table, head: int, foot: int, nodes: seq<int>, i: nat, k: nat)
    requires Links(t, head, foot, nodes) && Distinct(nodes) && i < |nodes| && k < |nodes| && k != i
    ensures var t' := Removed(t, head, foot, nodes[i]);
            && t'[nodes[k]].prev == (if k == 0 || (k == 1 && i == 0) then NULL else if k == i + 1 then nodes[i - 1] else nodes[k - 1])
            && t'[nodes[k]].next == (if k == |nodes| - 1 || (k == |nodes| - 2 && i == |nodes| - 1) then NULL
                                     else if k == i - 1 then nodes[i + 1] else nodes[k + 1])
  {
    NodeEnds(t, head, foot, nodes, i);
    assert nodes[k] != nodes[i];
    assert i > 0 && k != i - 1 ==> nodes[k] != nodes[i - 1];
    assert i < |nodes| - 1 && k != i + 1 ==> nodes[k] != nodes[i + 1];
  }

  lemma RemovedEnds(t: Table, head: int, foot: int, nodes: seq<int>, i: nat)
    requires Links(t, head, foot, nodes) && Distinct(nodes) && i < |nodes|
    ensures var r := RemoveAt(nodes, i);
            && RemovedHead(t, head, foot, nodes[i]) == (if r == [] then NULL else r[0])
            && RemovedFoot(t, head, foot, nodes[i]) == (if r == [] then NULL else r[|r| - 1])
  {
    NodeEnds(t, head, foot, nodes, i);
    RemoveIndex(nodes, i);
  }

  lemma RemoveBounds(t: Table, head: int, foot: int, nodes: seq<int>, i: nat)
    requires Links(t, head, foot, nodes) && Distinct(nodes) && i < |nodes|
    ensures var m := nodes[i];
            0 <= m < |t| && (head == m || 0 <= t[m].prev < |t|) && (foot == m || 0 <= t[m].next < |t|)
    ensures Within(RemoveAt(nodes, i), 0, |t|)
  {
    NodeEnds(t, head, foot, nodes, i);
    RemoveIndex(nodes, i);
  }

  lemma RemoveLinks(t: Table, head: int, foot: int, nodes: seq<int>, i: nat)
    requires Links(t, head, foot, nodes) && Distinct(nodes) && i < |nodes| && 0 <= nodes[i] < |t|
    ensures Links(Removed(t, head, foot, nodes[i]), RemovedHead(t, head, foot, nodes[i]),
                  RemovedFoot(t, head, foot, nodes[i]), RemoveAt(nodes, i))
  {
    var r := RemoveAt(nodes, i);
    RemoveBounds(t, head, foot, nodes, i);
    RemovedEnds(t, head, foot, nodes, i);
    var t' := Removed(t, head, foot, nodes[i]);
    forall j | 0 <= j < |r|
      ensures t'[r[j]].prev == (if j == 0 then NULL else r[j - 1]) && t'[r[j]].next == (if j == |r| - 1 then NULL else r[j + 1])
    {
      RemovedLinkOf(t, head, foot, nodes, i, j);
    }
    hide Removed, RemovedHead, RemovedFoot, RemoveAt, Distinct;
    LinksFromParts(t', RemovedHead(t, head, foot, nodes[i]), RemovedFoot(t, head, foot, nodes[i]), r);
  }

  lemma RemovedLinkOf(t: Table, head: int, foot: int, nodes: seq<int>, i: nat, j: nat)
    requires Links(t, head, foot, nodes) && Distinct(nodes) && i < |nodes| && 0 <= nodes[i] < |t|
    requires j < |RemoveAt(nodes, i)|
    ensures var r := RemoveAt(nodes, i);
            var t' := Removed(t, head, foot, nodes[i]);
            && 0 <= r[j] < |t|
            && t'[r[j]].prev == (if j == 0 then NULL else r[j - 1])
            && t'[r[j]].next == (if j == |r| - 1 then NULL else r[j + 1])
  {
    RemoveIndex(nodes, i);
    RemovedLinkAt(t, head, foot, nodes, i, if j < i then j else j + 1);
  }

  lemma LinksFromParts(t: Table, head: int, foot: int, nodes: seq<int>)
    requires Within(nodes, 0, |t|)
    requires head == (if nodes == [] then NULL else nodes[0]) && foot == (if nodes == [] then NULL else nodes[|nodes| - 1])
    requires forall j :: 0 <= j < |nodes| ==>
                           && t[nodes[j]].prev == (if j == 0 then NULL else nodes[j - 1])
                           && t[nodes[j]].next == (if j == |nodes| - 1 then NULL else nodes[j + 1])
    ensures Links(t, head, foot, nodes)
  {
  }

  lemma RemoveIndex<T>(s: seq<T>, i: nat)
    requires i < |s|
    ensures |RemoveAt(s, i)| == |s| - 1
    ensures forall j :: 0 <= j < |s| - 1 ==> RemoveAt(s, i)[j] == s[if j < i then j else j + 1]
  {
  }

  /** Append and remove write only the links of their own list's nodes. */
  lemma AppendFrame(t: Table, head: int, foot: int, nodes: seq<int>, m: int, k: int)
    requires Links(t, head, foot, nodes) && 0 <= m < |t| && 0 <= k < |t|
    ensures var t' := Appended(t, head, foot, m);
            && BlockOf(t'[k]) == BlockOf(t[k]) && t'[k].used == t[k].used
            && (k !in nodes && k != m ==> t'[k] == t[k])
  {
  }

  lemma RemoveFrame(t: Table, head: int, foot: int, nodes: seq<int>, i: nat, k: int)
    requires Links(t, head, foot, nodes) && Distinct(nodes) && i < |nodes| && 0 <= k < |t|
    ensures var t' := Removed(t, head, foot, nodes[i]);
            && BlockOf(t'[k]) == BlockOf(t[k]) && t'[k].used == t[k].used
            && (k !in nodes ==> t'[k] == t[k])
  {
    NodeEnds(t, head, foot, nodes, i);
  }

  // ---------------------------------------------------------------- one list

  /** A well-formed list over the slots from lo to hi. */
  ghost predicate Listed(t: Table, head: int, foot: int, nodes: seq<int>, lo: int, hi: int) {
    Links(t, head, foot, nodes) && Flags(t, nodes, lo, hi)
  }

  ghost predicate SameSlots(t: Table, t': Table, lo: int, hi: int) {
    |t'| == |t| && forall k :: 0 <= k < |t| && lo <= k < hi ==> t'[k] == t[k]
  }

  ghost predicate SameOutside(t: Table, t': Table, lo: int, hi: int) {
    |t'| == |t| && forall k :: 0 <= k < |t| && !(lo <= k < hi) ==> t'[k] == t[k]
  }

  /** Nothing but links differs, and those only at the nodes. */
  ghost predicate Relinked(t: Table, t': Table, nodes: seq<int>) {
    && |t'| == |t|
    && (forall k :: 0 <= k < |t| ==> BlockOf(t'[k]) == BlockOf(t[k]) && t'[k].used == t[k].used)
    && (forall k :: 0 <= k < |t| && k !in nodes ==> t'[k] == t[k])
  }

  lemma ListedFrame(t: Table, t': Table, head: int, foot: int, nodes: seq<int>, lo: int, hi: int)
    requires SameSlots(t, t', lo, hi) && Listed(t, head, foot, nodes, lo, hi)
    ensures Listed(t', head, foot, nodes, lo, hi) && Blocks(t', nodes) == Blocks(t, nodes)
  {
  }

  lemma AppendRelinks(t: Table, head: int, foot: int, nodes: seq<int>, m: int)
    requires Links(t, head, foot, nodes) && 0 <= m < |t|
    ensures Relinked(t, Appended(t, head, foot, m), nodes + [m])
  {
    forall k | 0 <= k < |t|
      ensures var t' := Appended(t, head, foot, m);
              BlockOf(t'[k]) == BlockOf(t[k]) && t'[k].used == t[k].used && (k !in nodes && k != m ==> t'[k] == t[k])
    {
      AppendFrame(t, head, foot, nodes, m, k);
    }
  }

  lemma AppendFlags(t: Table, t': Table, nodes: seq<int>, m: int, b: Mbd, lo: int, hi: int)
    requires Flags(t, nodes, lo, hi) && lo <= m < hi && m !in nodes && b.used && Relinked(t[m := b], t', nodes + [m])
    ensures Flags(t', nodes + [m], lo, hi) && SameOutside(t, t', lo, hi)
  {
  }

  lemma AppendBlocks(t: Table, t': Table, nodes: seq<int>, m: int, b: Mbd)
    requires 0 <= m < |t| && m !in nodes && Relinked(t[m := b], t', nodes + [m])
    ensures Blocks(t', nodes + [m]) == Blocks(t, nodes) + [BlockOf(b)]
  {
  }

  lemma AppendListed(t: Table, head: int, foot: int, nodes: seq<int>, m: int, lo: int, hi: int, b: Mbd)
    requires Listed(t, head, foot, nodes, lo, hi) && 0 <= lo <= m < hi <= |t| && m !in nodes && b.used
    ensures var t' := Appended(t[m := b], head, foot, m);
            && Listed(t', if nodes == [] then m else head, m, nodes + [m], lo, hi)
            && Blocks(t', nodes + [m]) == Blocks(t, nodes) + [BlockOf(b)]
            && SameOutside(t, t', lo, hi)
  {
    var t1 := t[m := b];
    LinksFrame(t, t1, head, foot, nodes);
    assert Distinct(nodes);
    hide Links, Flags, Appended, Blocks, Relinked, SameOutside, Distinct;
    AppendLinks(t1, head, foot, nodes, m);
    AppendRelinks(t1, head, foot, nodes, m);
    var t' := Appended(t1, head, foot, m);
    AppendFlags(t, t', nodes, m, b, lo, hi);
    AppendBlocks(t, t', nodes, m, b);
  }

  lemma RemoveRelinks(t: Table, head: int, foot: int, nodes: seq<int>, i: nat)
    requires Links(t, head, foot, nodes) && Distinct(nodes) && i < |nodes| && 0 <= nodes[i] < |t|
    ensures Relinked(t, Removed(t, head, foot, nodes[i]), nodes)
  {
    forall k | 0 <= k < |t|
      ensures var t' := Removed(t, head, foot, nodes[i]);
              BlockOf(t'[k]) == BlockOf(t[k]) && t'[k].used == t[k].used && (k !in nodes ==> t'[k] == t[k])
    {
      RemoveFrame(t, head, foot, nodes, i, k);
    }
  }

  function Unflagged(t: Table, m: int): (t': Table)
    ensures |t'| == |t|
  {
    if 0 <= m < |t| then t[m := t[m].(used := false)] else t
  }

  lemma RemoveBlocks(t: Table, t': Table, nodes: seq<int>, i: nat)
    requires i < |nodes| && Relinked(Unflagged(t, nodes[i]), t', nodes)
    ensures Blocks(t', RemoveAt(nodes, i)) == RemoveAt(Blocks(t, nodes), i)
    ensures forall k :: 0 <= k < |t| ==> BlockOf(t'[k]) == BlockOf(t[k])
  {
    RemoveIndex(nodes, i);
  }

  lemma RemoveFlags(t: Table, t': Table, nodes: seq<int>, i: nat, lo: int, hi: int)
    requires Flags(t, nodes, lo, hi) && i < |nodes| && Relinked(Unflagged(t, nodes[i]), t', nodes)
    ensures Flags(t', RemoveAt(nodes, i), lo, hi) && SameOutside(t, t', lo, hi)
  {
    RemoveDistinct(nodes, i);
    RemoveIndex(nodes, i);
  }

  lemma RemoveListed(t: Table, head: int, foot: int, nodes: seq<int>, i: nat, lo: int, hi: int)
    requires Listed(t, head, foot, nodes, lo, hi) && i < |nodes| && 0 <= nodes[i] < |t|
    ensures var m := nodes[i];
            var t1 := Unflagged(t, m);
            var t' := Removed(t1, head, foot, m);
            && Listed(t', RemovedHead(t1, head, foot, m), RemovedFoot(t1, head, foot, m), RemoveAt(nodes, i), lo, hi)
            && Blocks(t', RemoveAt(nodes, i)) == RemoveAt(Blocks(t, nodes), i)
            && (forall k :: 0 <= k < |t| ==> BlockOf(t'[k]) == BlockOf(t[k]))
            && SameOutside(t, t', lo, hi)
  {
    var m := nodes[i];
    var t1 := Unflagged(t, m);
    LinksFrame(t, t1, head, foot, nodes);
    assert Distinct(nodes);
    hide Links, Flags, Distinct, Removed, RemovedHead, RemovedFoot, Blocks, RemoveAt, Relinked, SameOutside, Unflagged;
    RemoveLinks(t1, head, foot, nodes, i);
    RemoveRelinks(t1, head, foot, nodes, i);
    var t' := Removed(t1, head, foot, m);
    RemoveFlags(t, t', nodes, i, lo, hi);
    RemoveBlocks(t, t', nodes, i);
  }

  // ---------------------------------------------------------- the two lists

  /** Both tables with their heads and feet, and the nodes of the two lists. */
  datatype Lists = Lists(t: Table, freeHead: int, freeFoot: int, usedHead: int, usedFoot: int,
                         freeNodes: seq<int>, usedNodes: seq<int>)

  ghost predicate WellFormed(h: Lists) {
    && |h.t| == 2 * MBD_COUNT
    && Listed(h.t, h.freeHead, h.freeFoot, h.freeNodes, 0, MBD_COUNT)
    && Listed(h.t, h.usedHead, h.usedFoot, h.usedNodes, MBD_COUNT, 2 * MBD_COUNT)
  }

  ghost function AsMem(h: Lists): Mem
    requires WellFormed(h)
  {
    Mem(Blocks(h.t, h.freeNodes), Blocks(h.t, h.usedNodes))
  }

  /** A list as long as the table leaves no free slot, and the other way round. */
  lemma TableFullIff(t: Table, nodes: seq<int>, lo: int, hi: int)
    requires 0 <= lo <= hi <= |t| && Flags(t, nodes, lo, hi)
    ensures |nodes| <= hi - lo
    ensures |nodes| == hi - lo <==> forall k :: lo <= k < hi ==> t[k].used
  {
    var all := Range(lo, hi);
    var s := set k | k in nodes;
    DistinctSize(nodes);
    assert s <= all;
    SubsetSize(s, all);
    if |nodes| == hi - lo {
      SubsetEqual(s, all);
      forall k | lo <= k < hi
        ensures t[k].used
      {
        assert k in s;
      }
    }
    if forall k :: lo <= k < hi ==> t[k].used {
      assert s == all;
    }
  }

  ghost function Range(lo: int, hi: int): (r: set<int>)
    requires lo <= hi
    ensures forall k :: k in r <==> lo <= k < hi
    ensures |r| == hi - lo
    decreases hi - lo
  {
    if lo == hi then {} else Range(lo, hi - 1) + {hi - 1}
  }

  lemma {:induction false} DistinctSize(nodes: seq<int>)
    requires Distinct(nodes)
    ensures |set k | k in nodes| == |nodes|
  {
    if nodes != [] {
      DistinctSize(nodes[1..]);
      assert (set k | k in nodes) == (set k | k in nodes[1..]) + {nodes[0]};
    } else {
      assert (set k | k in nodes) == {};
    }
  }

  lemma SubsetSize(a: set<int>, b: set<int>)
    requires a <= b
    ensures |a| <= |b|
  {
    assert |b - a| == |b| - |a|;
  }

  lemma SubsetEqual(a: set<int>, b: set<int>)
    requires a <= b && |a| == |b|
    ensures a == b
  {
    assert |b - a| == |b| - |a|;
  }

  // -------------------------------------------- the allocator's list surgery

  /** Slot u of the used-block table is filled in and joins the used list. */
  ghost function Enlist(h: Lists, u: int, b: Block): Lists
    requires WellFormed(h) && MBD_COUNT <= u < 2 * MBD_COUNT && u !in h.usedNodes
  {
    var t1 := h.t[u := h.t[u].(used := true, start := b.start, length := b.length)];
    h.(t := Appended(t1, h.usedHead, h.usedFoot, u),
       usedHead := if h.usedNodes == [] then u else h.usedHead, usedFoot := u, usedNodes := h.usedNodes + [u])
  }

  lemma EnlistWellFormed(h: Lists, u: int, b: Block)
    requires WellFormed(h) && MBD_COUNT <= u < 2 * MBD_COUNT && u !in h.usedNodes
    ensures WellFormed(Enlist(h, u, b))
    ensures AsMem(Enlist(h, u, b)) == Mem(AsMem(h).free, AsMem(h).used + [b])
  {
    var m := h.t[u].(used := true, start := b.start, length := b.length);
    AppendListed(h.t, h.usedHead, h.usedFoot, h.usedNodes, u, MBD_COUNT, 2 * MBD_COUNT, m);
    ListedFrame(h.t, Enlist(h, u, b).t, h.freeHead, h.freeFoot, h.freeNodes, 0, MBD_COUNT);
  }

  /** The block of free node j is rewritten in place. */
  ghost function Resize(h: Lists, j: nat, b: Block): Lists
    requires WellFormed(h) && j < |h.freeNodes|
  {
    var m := h.freeNodes[j];
    h.(t := h.t[m := h.t[m].(start := b.start, length := b.length)])
  }

  lemma ResizeWellFormed(h: Lists, j: nat, b: Block)
    requires WellFormed(h) && j < |h.freeNodes|
    ensures WellFormed(Resize(h, j, b))
    ensures AsMem(Resize(h, j, b)) == Mem(AsMem(h).free[j := b], AsMem(h).used)
  {
    var h' := Resize(h, j, b);
    LinksFrame(h.t, h'.t, h.freeHead, h.freeFoot, h.freeNodes);
    ResizeFlags(h.t, h.freeNodes, j, b);
    hide Links, Flags;
    ListedFrame(h.t, h'.t, h.usedHead, h.usedFoot, h.usedNodes, MBD_COUNT, 2 * MBD_COUNT);
  }

  lemma ResizeFlags(t: Table, nodes: seq<int>, j: nat, b: Block)
    requires |t| == 2 * MBD_COUNT && Flags(t, nodes, 0, MBD_COUNT) && j < |nodes|
    ensures var t' := t[nodes[j] := t[nodes[j]].(start := b.start, length := b.length)];
            Flags(t', nodes, 0, MBD_COUNT) && Blocks(t', nodes) == Blocks(t, nodes)[j := b]
  {
  }

  /** Free node j leaves its list and its flag is cleared. */
  ghost function DropFree(h: Lists, j: nat): Lists
    requires WellFormed(h) && j < |h.freeNodes|
  {
    var m := h.freeNodes[j];
    var t1 := Unflagged(h.t, m);
    h.(t := Removed(t1, h.freeHead, h.freeFoot, m),
       freeHead := RemovedHead(t1, h.freeHead, h.freeFoot, m), freeFoot := RemovedFoot(t1, h.freeHead, h.freeFoot, m),
       freeNodes := RemoveAt(h.freeNodes, j))
  }

  lemma DropFreeWellFormed(h: Lists, j: nat)
    requires WellFormed(h) && j < |h.freeNodes|
    ensures WellFormed(DropFree(h, j))
    ensures AsMem(DropFree(h, j)) == Mem(RemoveAt(AsMem(h).free, j), AsMem(h).used)
    ensures DropFree(h, j).usedNodes == h.usedNodes
    ensures forall k :: MBD_COUNT <= k < 2 * MBD_COUNT ==> DropFree(h, j).t[k] == h.t[k]
  {
    RemoveListed(h.t, h.freeHead, h.freeFoot, h.freeNodes, j, 0, MBD_COUNT);
    ListedFrame(h.t, DropFree(h, j).t, h.usedHead, h.usedFoot, h.usedNodes, MBD_COUNT, 2 * MBD_COUNT);
  }

  /** Used node i leaves its list and its flag is cleared. */
  ghost function DropUsed(h: Lists, i: nat): Lists
    requires WellFormed(h) && i < |h.usedNodes|
  {
    var m := h.usedNodes[i];
    var t1 := Unflagged(h.t, m);
    h.(t := Removed(t1, h.usedHead, h.usedFoot, m),
       usedHead := RemovedHead(t1, h.usedHead, h.usedFoot, m), usedFoot := RemovedFoot(t1, h.usedHead, h.usedFoot, m),
       usedNodes := RemoveAt(h.usedNodes, i))
  }

  lemma DropUsedWellFormed(h: Lists, i: nat)
    requires WellFormed(h) && i < |h.usedNodes|
    ensures WellFormed(DropUsed(h, i))
    ensures AsMem(DropUsed(h, i)) == Mem(AsMem(h).free, RemoveAt(AsMem(h).used, i))
    ensures forall k :: 0 <= k < |h.t| ==> BlockOf(DropUsed(h, i).t[k]) == BlockOf(h.t[k])
    ensures forall k :: 0 <= k < MBD_COUNT ==> DropUsed(h, i).t[k] == h.t[k]
    ensures |DropUsed(h, i).t| == |h.t|
  {
    RemoveListed(h.t, h.usedHead, h.usedFoot, h.usedNodes, i, MBD_COUNT, 2 * MBD_COUNT);
    ListedFrame(h.t, DropUsed(h, i).t, h.freeHead, h.freeFoot, h.freeNodes, 0, MBD_COUNT);
  }

  /** An unlisted slot of the free-block table holds record b, flagged, and joins the free list. */
  ghost function EnlistFree(h: Lists, m: int, b: Mbd): Lists
    requires WellFormed(h) && 0 <= m < MBD_COUNT && m !in h.freeNodes
  {
    var t1 := h.t[m := b];
    h.(t := Appended(t1, h.freeHead, h.freeFoot, m),
       freeHead := if h.freeNodes == [] then m else h.freeHead, freeFoot := m, freeNodes := h.freeNodes + [m])
  }

  lemma EnlistFreeWellFormed(h: Lists, m: int, b: Mbd)
    requires WellFormed(h) && 0 <= m < MBD_COUNT && m !in h.freeNodes && b.used
    ensures WellFormed(EnlistFree(h, m, b))
    ensures AsMem(EnlistFree(h, m, b)) == Mem(AsMem(h).free + [BlockOf(b)], AsMem(h).used)
  {
    AppendListed(h.t, h.freeHead, h.freeFoot, h.freeNodes, m, 0, MBD_COUNT, b);
    ListedFrame(h.t, EnlistFree(h, m, b).t, h.usedHead, h.usedFoot, h.usedNodes, MBD_COUNT, 2 * MBD_COUNT);
  }

  /** A slot that no list uses may hold anything as long as its flag is clear. */
  lemma ScratchWellFormed(h: Lists, m: int, b: Mbd)
    requires WellFormed(h) && 0 <= m < MBD_COUNT && m !in h.freeNodes && !b.used
    ensures WellFormed(h.(t := h.t[m := b])) && AsMem(h.(t := h.t[m := b])) == AsMem(h)
  {
    var t' := h.t[m := b];
    LinksFrame(h.t, t', h.freeHead, h.freeFoot, h.freeNodes);
    ScratchFlags(h.t, h.freeNodes, m, b);
    hide Links, Flags;
    ListedFrame(h.t, t', h.usedHead, h.usedFoot, h.usedNodes, MBD_COUNT, 2 * MBD_COUNT);
  }

  lemma ScratchFlags(t: Table, nodes: seq<int>, m: int, b: Mbd)
    requires |t| == 2 * MBD_COUNT && Flags(t, nodes, 0, MBD_COUNT) && 0 <= m < MBD_COUNT && m !in nodes && !b.used
    ensures Flags(t[m := b], nodes, 0, MBD_COUNT) && Blocks(t[m := b], nodes) == Blocks(t, nodes)
  {
  }

  // ------------------------------------------------- what each call leaves

  /** The lists hold a sound memory of which usedBytes, the area below the start included, are taken. */
  ghost predicate Sound(h: Lists, end: nat, usedBytes: int) {
    && WellFormed(h)
    && Inv(AsMem(h), end)
    && usedBytes == ALLOC_START + Weigh(AsMem(h).used, Bytes())
  }

  /** A list is empty exactly when its head, and exactly when its foot, is NULL. */
  lemma HeadsNull(h: Lists)
    requires WellFormed(h)
    ensures h.usedNodes == [] <==> h.usedHead == NULL
    ensures h.usedNodes == [] <==> h.usedFoot == NULL
    ensures h.usedFoot != NULL ==> 0 <= h.usedFoot < |h.t|
    ensures h.freeNodes == [] <==> h.freeHead == NULL
    ensures h.freeNodes == [] <==> h.freeFoot == NULL
    ensures h.freeFoot != NULL ==> 0 <= h.freeFoot < |h.t|
  {
  }

  lemma FreeNode(h: Lists, j: nat)
    requires WellFormed(h) && j < |h.freeNodes|
    ensures 0 <= h.freeNodes[j] < MBD_COUNT && |h.t| == 2 * MBD_COUNT && |AsMem(h).free| == |h.freeNodes|
    ensures BlockOf(h.t[h.freeNodes[j]]) == AsMem(h).free[j] && h.t[h.freeNodes[j]].used
  {
  }

  lemma UnusedSlot(h: Lists, u: int)
    requires WellFormed(h) && 0 <= u < 2 * MBD_COUNT && !h.t[u].used
    ensures u !in h.usedNodes && u !in h.freeNodes
  {
  }

  /** The lists after a block was cut from free node j, b' being what remains of it,
      and recorded in slot u of the used-block table. */
  ghost function Cut(h: Lists, j: nat, b': Block, u: int, b: Block): Lists
    requires WellFormed(h) && j < |h.freeNodes| && MBD_COUNT <= u < 2 * MBD_COUNT && !h.t[u].used
  {
    ResizeWellFormed(h, j, b');
    UnusedSlot(h, u);
    Enlist(Resize(h, j, b'), u, b)
  }

  lemma CutSound(h: Lists, end: nat, usedBytes: int, j: nat, b': Block, u: int, b: Block)
    requires Sound(h, end, usedBytes) && j < |h.freeNodes| && MBD_COUNT <= u < 2 * MBD_COUNT && !h.t[u].used
    ensures WellFormed(Cut(h, j, b', u, b))
    ensures Sound(Cut(h, j, b', u, b), end, usedBytes + b.length)
       <==> Inv(Mem(AsMem(h).free[j := b'], AsMem(h).used + [b]), end)
    ensures AsMem(Cut(h, j, b', u, b)) == Mem(AsMem(h).free[j := b'], AsMem(h).used + [b])
  {
    hide WellFormed, Inv, AsMem, Enlist;
    ResizeWellFormed(h, j, b');
    UnusedSlot(h, u);
    EnlistWellFormed(Resize(h, j, b'), u, b);
    WeighAppend(AsMem(h).used, b, Bytes());
  }

  /** The lists after free node j was used up and recorded in slot u of the used-block table. */
  ghost function Consume(h: Lists, j: nat, u: int, b: Block): Lists
    requires WellFormed(h) && j < |h.freeNodes| && MBD_COUNT <= u < 2 * MBD_COUNT && !h.t[u].used
  {
    FreeNode(h, j);
    ResizeWellFormed(h, j, Block(Wrap(b.start + b.length), 0));
    DropFreeWellFormed(Resize(h, j, Block(Wrap(b.start + b.length), 0)), j);
    UnusedSlot(h, u);
    Enlist(DropFree(Resize(h, j, Block(Wrap(b.start + b.length), 0)), j), u, b)
  }

  lemma ConsumeSound(h: Lists, end: nat, usedBytes: int, j: nat, u: int, b: Block)
    requires Sound(h, end, usedBytes) && j < |h.freeNodes| && MBD_COUNT <= u < 2 * MBD_COUNT && !h.t[u].used
    requires AsMem(h).free[j] == b
    requires Inv(Mem(RemoveAt(AsMem(h).free, j), AsMem(h).used + [b]), end)
    ensures Sound(Consume(h, j, u, b), end, usedBytes + b.length)
    ensures AsMem(Consume(h, j, u, b)) == Mem(RemoveAt(AsMem(h).free, j), AsMem(h).used + [b])
  {
    hide WellFormed, Inv, AsMem, Enlist, DropFree;
    FreeNode(h, j);
    var h1 := Resize(h, j, Block(Wrap(b.start + b.length), 0));
    ResizeWellFormed(h, j, Block(Wrap(b.start + b.length), 0));
    DropFreeWellFormed(h1, j);
    UnusedSlot(h, u);
    var h2 := DropFree(h1, j);
    EnlistWellFormed(h2, u, b);
    WeighAppend(AsMem(h).used, b, Bytes());
  }

  /** Which slots TakeFrontOf and MemFree rely on: a free node and its neighbours lie in the
      free-block table, a used node and its neighbours in the used-block table. */
  lemma FreeNeighbours(h: Lists, j: nat)
    requires WellFormed(h) && j < |h.freeNodes|
    ensures var m := h.freeNodes[j];
            && (h.freeHead == m || 0 <= h.t[m].prev < MBD_COUNT) && (h.freeFoot == m || 0 <= h.t[m].next < MBD_COUNT)
            && NULL <= h.t[m].prev < MBD_COUNT && NULL <= h.t[m].next < MBD_COUNT && h.t[m].prev != m && 0 <= m < MBD_COUNT
  {
    NodeEnds(h.t, h.freeHead, h.freeFoot, h.freeNodes, j);
  }

  lemma UsedNeighbours(h: Lists, i: nat)
    requires WellFormed(h) && i < |h.usedNodes|
    ensures var m := h.usedNodes[i];
            && |h.t| == 2 * MBD_COUNT && MBD_COUNT <= m < 2 * MBD_COUNT && h.t[m].used
            && (h.usedHead == m || MBD_COUNT <= h.t[m].prev < 2 * MBD_COUNT)
            && (h.usedFoot == m || MBD_COUNT <= h.t[m].next < 2 * MBD_COUNT)
            && (h.t[m].prev == NULL || MBD_COUNT <= h.t[m].prev < 2 * MBD_COUNT)
            && (h.t[m].next == NULL || MBD_COUNT <= h.t[m].next < 2 * MBD_COUNT)
            && (h.t[m].prev == NULL <==> h.usedHead == m) && (h.t[m].next == NULL <==> h.usedFoot == m)
            && h.t[m].prev != m
            && |AsMem(h).used| == |h.usedNodes| && BlockOf(h.t[m]) == AsMem(h).used[i]
  {
    NodeEnds(h.t, h.usedHead, h.usedFoot, h.usedNodes, i);
    assert i > 0 ==> MBD_COUNT <= h.usedNodes[i - 1] < 2 * MBD_COUNT;
    assert i < |h.usedNodes| - 1 ==> MBD_COUNT <= h.usedNodes[i + 1] < 2 * MBD_COUNT;
  }

  lemma FreePrevNext(h: Lists, j: nat)
    requires WellFormed(h) && j < |h.freeNodes|
    ensures h.t[h.freeNodes[j]].prev == if j == 0 then NULL else h.freeNodes[j - 1]
    ensures h.t[h.freeNodes[j]].next == if j == |h.freeNodes| - 1 then NULL else h.freeNodes[j + 1]
  {
  }

  lemma UsedPrevNext(h: Lists, i: nat)
    requires WellFormed(h) && i < |h.usedNodes|
    ensures h.t[h.usedNodes[i]].prev == if i == 0 then NULL else h.usedNodes[i - 1]
    ensures h.t[h.usedNodes[i]].next == if i == |h.usedNodes| - 1 then NULL else h.usedNodes[i + 1]
  {
  }

  /** Where the two lists start and end. */
  lemma Ends(h: Lists)
    requires WellFormed(h)
    ensures |h.t| == 2 * MBD_COUNT
    ensures h.freeFoot == if h.freeNodes == [] then NULL else h.freeNodes[|h.freeNodes| - 1]
    ensures h.freeHead == if h.freeNodes == [] then NULL else h.freeNodes[0]
    ensures h.usedHead == if h.usedNodes == [] then NULL else h.usedNodes[0]
    ensures |AsMem(h).free| == |h.freeNodes| && |AsMem(h).used| == |h.usedNodes|
  {
  }


  lemma FreeNodeNotNull(h: Lists, j: int)
    requires WellFormed(h) && j < |h.freeNodes|
    ensures |AsMem(h).free| == |h.freeNodes| && |AsMem(h).used| == |h.usedNodes|
    ensures (if j < 0 then NULL else h.freeNodes[j]) == NULL <==> j < 0
  {
  }

  lemma FullTables(h: Lists)
    requires WellFormed(h)
    ensures |h.t| == 2 * MBD_COUNT
    ensures |AsMem(h).used| <= MBD_COUNT && |AsMem(h).free| <= MBD_COUNT
    ensures |AsMem(h).used| == MBD_COUNT <==> forall k :: MBD_COUNT <= k < 2 * MBD_COUNT ==> h.t[k].used
    ensures |AsMem(h).free| == MBD_COUNT <==> forall k :: 0 <= k < MBD_COUNT ==> h.t[k].used
  {
    TableFullIff(h.t, h.usedNodes, MBD_COUNT, 2 * MBD_COUNT);
    TableFullIff(h.t, h.freeNodes, 0, MBD_COUNT);
  }

  lemma EmptyWellFormed(h: Lists)
    requires |h.t| == 2 * MBD_COUNT && (forall k :: 0 <= k < |h.t| ==> !h.t[k].used)
    requires h.freeHead == h.freeFoot == h.usedHead == h.usedFoot == NULL && h.freeNodes == h.usedNodes == []
    ensures WellFormed(h) && AsMem(h) == Mem([], [])
  {
  }

  /** The lists after used node i was given back through slot m of the free-block table
      and joined to free node j. */
  ghost function Merge(h: Lists, i: nat, m: int, j: nat, b': Block): Lists
    requires WellFormed(h) && i < |h.usedNodes| && j < |h.freeNodes| && 0 <= m < MBD_COUNT
  {
    DropUsedWellFormed(h, i);
    FreeNode(h, j);
    var h1 := DropUsed(h, i);
    var h2 := Resize(h1, j, b');
    h2.(t := h2.t[m := h.t[h.usedNodes[i]].(used := false)])
  }

  lemma MergeSound(h: Lists, end: nat, usedBytes: int, i: nat, m: int, j: nat, b': Block)
    requires Sound(h, end, usedBytes) && i < |h.usedNodes| && j < |h.freeNodes| && 0 <= m < MBD_COUNT && !h.t[m].used
    requires |AsMem(h).free| == |h.freeNodes| && |AsMem(h).used| == |h.usedNodes|
    requires Inv(Mem(AsMem(h).free[j := b'], RemoveAt(AsMem(h).used, i)), end)
    ensures Sound(Merge(h, i, m, j, b'), end, usedBytes - AsMem(h).used[i].length)
    ensures AsMem(Merge(h, i, m, j, b')) == Mem(AsMem(h).free[j := b'], RemoveAt(AsMem(h).used, i))
  {
    UnusedSlot(h, m);
    hide WellFormed, Inv, AsMem, RemoveAt;
    DropUsedWellFormed(h, i);
    var h1 := DropUsed(h, i);
    ResizeWellFormed(h1, j, b');
    ScratchWellFormed(Resize(h1, j, b'), m, h.t[h.usedNodes[i]].(used := false));
    WeighRemove(AsMem(h).used, i, Bytes());
  }

  /** The lists after used node i was given back as a new node at the end of the free list. */
  ghost function Return(h: Lists, i: nat, m: int): Lists
    requires WellFormed(h) && i < |h.usedNodes| && 0 <= m < MBD_COUNT && !h.t[m].used
  {
    UnusedSlot(h, m);
    DropUsedWellFormed(h, i);
    EnlistFree(DropUsed(h, i), m, h.t[h.usedNodes[i]])
  }

  lemma ReturnSound(h: Lists, end: nat, usedBytes: int, i: nat, m: int)
    requires Sound(h, end, usedBytes) && i < |h.usedNodes| && 0 <= m < MBD_COUNT && !h.t[m].used
    requires |AsMem(h).used| == |h.usedNodes|
    requires Inv(Mem(AsMem(h).free + [AsMem(h).used[i]], RemoveAt(AsMem(h).used, i)), end)
    ensures Sound(Return(h, i, m), end, usedBytes - AsMem(h).used[i].length)
    ensures AsMem(Return(h, i, m)) == Mem(AsMem(h).free + [AsMem(h).used[i]], RemoveAt(AsMem(h).used, i))
  {
    UnusedSlot(h, m);
    UsedNeighbours(h, i);
    hide WellFormed, Inv, AsMem, RemoveAt, EnlistFree;
    DropUsedWellFormed(h, i);
    var h1 := DropUsed(h, i);
    EnlistFreeWellFormed(h1, m, h.t[h.usedNodes[i]]);
    WeighRemove(AsMem(h).used, i, Bytes());
  }

  /** A one-node list whose node still points elsewhere is no list at all. */
  lemma StaleLinks(t: Table, m: int, nodes: seq<int>)
    requires 0 <= m < |t| && (t[m].prev != NULL || t[m].next != NULL)
    requires Distinct(nodes)
    ensures !Links(t, m, m, nodes)
  {
    if |nodes| > 1 {
      assert nodes[0] != nodes[|nodes| - 1];
    }
  }

  /** The free list seen through a table in which an unlisted slot m was overwritten. */
  lemma FreeListFrame(h: Lists, m: int, b: Mbd)
    requires WellFormed(h) && 0 <= m < MBD_COUNT && m !in h.freeNodes
    ensures Links(h.t[m := b], h.freeHead, h.freeFoot, h.freeNodes)
    ensures Within(h.freeNodes, 0, |h.t|) && Blocks(h.t[m := b], h.freeNodes) == AsMem(h).free
    ensures |h.freeNodes| == |AsMem(h).free|
    ensures forall j :: 0 <= j < |h.freeNodes| ==> h.freeNodes[j] != m && h.t[h.freeNodes[j]].used
  {
    LinksFrame(h.t, h.t[m := b], h.freeHead, h.freeFoot, h.freeNodes);
  }

  /** A list whose head is its foot has one node, linked to nothing. */
  lemma SoleNode(h: Lists, i: nat)
    requires WellFormed(h) && i < |h.usedNodes|
    ensures var m := h.usedNodes[i];
            && 0 <= m < |h.t|
            && (h.usedHead == h.usedFoot <==> h.t[m].prev == NULL && h.t[m].next == NULL)
  {
    NodeEnds(h.t, h.usedHead, h.usedFoot, h.usedNodes, i);
    var nodes := h.usedNodes;
    if |nodes| > 1 {
      assert nodes[0] != nodes[|nodes| - 1];
    }
  }

  lemma InitMem(end: nat, b: Block)
    requires ALLOC_START < end <= WORD && b == Block(ALLOC_START, end - ALLOC_START)
    ensures Mem([] + [b], []) == Init(end) && Inv(Init(end), end) && Weigh([], Bytes()) == 0
  {
    InitInv(end);
    assert [] + [b] == [b];
  }

  // ------------------------------------------------------- table information

  /** The bytes of the flagged records among n slots from lo on. */
  ghost function SlotBytes(t: Table, lo: nat, n: nat): nat
    requires lo + n <= |t|
  {
    if n == 0 then 0 else SlotBytes(t, lo, n - 1) + if t[lo + n - 1].used then t[lo + n - 1].length else 0
  }

  /** How many of the n slots from lo on are flagged. */
  ghost function SlotCount(t: Table, lo: nat, n: nat): (c: nat)
    requires lo + n <= |t|
    ensures c <= n
  {
    if n == 0 then 0 else SlotCount(t, lo, n - 1) + if t[lo + n - 1].used then 1 else 0
  }

  /** Scanning the slots of a table counts and sums what its list holds. */
  lemma {:induction false} ScanMatchesList(t: Table, nodes: seq<int>, lo: nat, n: nat)
    requires lo + n <= |t| && Flags(t, nodes, lo, lo + n)
    ensures SlotBytes(t, lo, n) == Weigh(Blocks(t, nodes), Bytes())
    ensures SlotCount(t, lo, n) == |nodes|
    decreases n
  {
    if n == 0 {
      TableFullIff(t, nodes, lo, lo);
    } else {
      var k := lo + n - 1;
      if t[k].used {
        var i :| 0 <= i < |nodes| && nodes[i] == k;
        LastSlotFlags(t, nodes, i, lo, n);
        RemoveAllBlocks(t, nodes, i);
        WeighRemove(Blocks(t, nodes), i, Bytes());
        ScanMatchesList(t, RemoveAt(nodes, i), lo, n - 1);
      } else {
        ScanMatchesList(t, nodes, lo, n - 1);
      }
    }
  }

  lemma LastSlotFlags(t: Table, nodes: seq<int>, i: nat, lo: nat, n: nat)
    requires 0 < n && lo + n <= |t| && Flags(t, nodes, lo, lo + n) && i < |nodes| && nodes[i] == lo + n - 1
    ensures Flags(t, RemoveAt(nodes, i), lo, lo + n - 1)
  {
    RemoveDistinct(nodes, i);
    var r := RemoveAt(nodes, i);
    forall j | 0 <= j < |r|
      ensures lo <= r[j] < lo + n - 1
    {
      assert r[j] in r;
    }
  }

  lemma RemoveAllBlocks(t: Table, nodes: seq<int>, i: nat)
    requires i < |nodes|
    ensures Blocks(t, RemoveAt(nodes, i)) == RemoveAt(Blocks(t, nodes), i)
  {
    RemoveIndex(nodes, i);
  }

  /** In a well-formed state both walks of both lists agree, meet no slot twice, and meet
      exactly the slots whose flag is set. */
  lemma WalksVisitFlagged(h: Lists, fuel: nat, k: int)
    requires WellFormed(h) && fuel >= MBD_COUNT && 0 <= k < 2 * MBD_COUNT
    ensures Backward(h.t, h.freeFoot, fuel) == Reverse(Forward(h.t, h.freeHead, fuel))
    ensures Backward(h.t, h.usedFoot, fuel) == Reverse(Forward(h.t, h.usedHead, fuel))
    ensures Distinct(Forward(h.t, h.freeHead, fuel)) && Distinct(Forward(h.t, h.usedHead, fuel))
    ensures h.t[k].used <==> k in Forward(h.t, h.freeHead, fuel) || k in Forward(h.t, h.usedHead, fuel)
  {
    TableFullIff(h.t, h.freeNodes, 0, MBD_COUNT);
    TableFullIff(h.t, h.usedNodes, MBD_COUNT, 2 * MBD_COUNT);
    WalksAgree(h.t, h.freeHead, h.freeFoot, h.freeNodes, fuel);
    WalksAgree(h.t, h.usedHead, h.usedFoot, h.usedNodes, fuel);
  }

  lemma UsedScan(h: Lists, end: nat, usedBytes: int)
    requires Sound(h, end, usedBytes)
    ensures |h.t| == 2 * MBD_COUNT && SlotCount(h.t, MBD_COUNT, MBD_COUNT) == |AsMem(h).used|
    ensures ALLOC_START + SlotBytes(h.t, MBD_COUNT, MBD_COUNT) == usedBytes
  {
    ScanMatchesList(h.t, h.usedNodes, MBD_COUNT, MBD_COUNT);
  }

  lemma FreeScan(h: Lists, end: nat, usedBytes: int)
    requires Sound(h, end, usedBytes)
    ensures |h.t| == 2 * MBD_COUNT && SlotCount(h.t, 0, MBD_COUNT) == |AsMem(h).free|
    ensures SlotBytes(h.t, 0, MBD_COUNT) == end - usedBytes && 0 <= end - usedBytes < WORD
  {
    ScanMatchesList(h.t, h.freeNodes, 0, MBD_COUNT);
  }

  lemma TwoUsed(h: Lists)
    requires WellFormed(h) && AsMem(h).free == [] && |AsMem(h).used| == 2
    ensures h.freeHead == NULL && h.usedHead != h.usedFoot
  {
    assert h.usedNodes[0] != h.usedNodes[1];
  }
}
