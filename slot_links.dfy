/** The slot arrays of the array-backed positional list, seen as values.
    `prev` and `next` hold integer slot indices; slot 0 is the permanent rear
    sentinel; the occupied slots form a doubly-linked chain from `frontLoc` to
    the sentinel, and the freed slots form a second chain (the "avail" chain)
    threaded through `next` from `availLoc`. The ghost sequences `nodes` (the
    occupied slots, front to rear) and `avail` (the avail chain, head first)
    name what the links encode. This module states that invariant and proves
    what the list's insertion, removal and reallocation steps do to it. */
module SlotLinks {

  /** Index of the permanent rear sentinel slot. */
  const Rear: int := 0
  /** The "no slot" index: prev of the front node, end of the avail chain, a disposed cursor. */
  const NoLoc: int := -1
  /** Array length of a new list, and the length below which the arrays are never cut. */
  const InitAryLen: int := 8
  const MinAryLen: int := 8

  /** A contents slot: `None` is a slot never written (Java's null in a fresh array). */
  datatype Option<T> = None | Some(value: T)

  /** The link part of the list's state: both link arrays and the three list-level indices. */
  datatype Links = Links(prev: seq<int>, next: seq<int>, frontLoc: int, availLoc: int, numItems: int)

  /** The entries at indices i and j differ. */
  ghost predicate Apart(s: seq<int>, i: int, j: int)
    requires 0 <= i < |s| && 0 <= j < |s|
  {
    s[i] != s[j]
  }

  /** No entry occurs twice. The pairwise facts are reached through Apart, so that
      they are drawn only where a proof asks for them (see DistinctAt). */
  ghost predicate Distinct(s: seq<int>)
  {
    forall i, j :: 0 <= i < j < |s| ==> Apart(s, i, j)
  }

  /** In a sequence without repetitions, equal entries sit at equal indices. */
  lemma DistinctAt(s: seq<int>, i: int, j: int)
    requires Distinct(s) && 0 <= i < |s| && 0 <= j < |s|
    ensures s[i] == s[j] ==> i == j
  {
    if i < j {
      assert Apart(s, i, j);
    } else if j < i {
      assert Apart(s, j, i);
    }
  }

  /** The slots a cursor can rest on, front to rear: the occupied slots, then the sentinel. */
  function Positions(nodes: seq<int>): seq<int>
  {
    nodes + [Rear]
  }

  /** `nodes` is the chain of occupied slots: `frontLoc` is its first position, `next`
      leads from each node to the following position, `prev` leads back, and the
      front's `prev` is -1. */
  ghost predicate Chain(l: Links, nodes: seq<int>)
  {
    && |l.prev| == |l.next|
    && (forall k :: 0 <= k < |nodes| ==> 0 < nodes[k] < |l.next|)
    && Distinct(Positions(nodes))
    && 0 < |l.next|
    && l.frontLoc == Positions(nodes)[0]
    && l.prev[l.frontLoc] == NoLoc
    && (forall k {:trigger l.next[nodes[k]]} :: 0 <= k < |nodes| ==> l.next[nodes[k]] == Positions(nodes)[k + 1])
    && (forall k {:trigger l.prev[Positions(nodes)[k]]} :: 0 < k <= |nodes| ==> l.prev[Positions(nodes)[k]] == Positions(nodes)[k - 1])
  }

  /** `avail` is the chain of free slots: it starts at `availLoc` (-1 when empty),
      `next` leads from each to the following one, and the last one's `next` is -1. */
  ghost predicate AvailChain(l: Links, avail: seq<int>)
  {
    && (forall k :: 0 <= k < |avail| ==> 0 < avail[k] < |l.next|)
    && Distinct(avail)
    && l.availLoc == (if avail == [] then NoLoc else avail[0])
    && (forall k {:trigger l.next[avail[k]]} :: 0 <= k < |avail| ==> l.next[avail[k]] == if k + 1 < |avail| then avail[k + 1] else NoLoc)
  }

  /** No slot is both occupied and free, and the slots ever handed out are exactly
      1 .. |nodes| + |avail|: this is what lets insert take slot `numItems + 1`
      when the avail chain is empty. */
  ghost predicate Packed(nodes: seq<int>, avail: seq<int>)
  {
    && (forall s :: s in nodes ==> s !in avail)
    && (forall s :: s in nodes || s in avail <==> 1 <= s <= |nodes| + |avail|)
  }

  /** The whole link invariant of the list. */
  ghost predicate Linked(l: Links, nodes: seq<int>, avail: seq<int>)
  {
    && Chain(l, nodes)
    && AvailChain(l, avail)
    && Packed(nodes, avail)
    && l.numItems == |nodes|
    && l.numItems + |avail| < |l.next|
  }

  /** Every occupied slot lies inside `contents` and has been written. */
  ghost predicate Filled<T>(contents: seq<Option<T>>, nodes: seq<int>)
  {
    forall k :: 0 <= k < |nodes| ==> 0 <= nodes[k] < |contents| && contents[nodes[k]].Some?
  }

  /** The items of the list: the contents of the occupied slots, front to rear. */
  function Gather<T>(contents: seq<Option<T>>, nodes: seq<int>): (items: seq<T>)
    requires Filled(contents, nodes)
    ensures |items| == |nodes|
    ensures forall k :: 0 <= k < |nodes| ==> Some(items[k]) == contents[nodes[k]]
  {
    seq(|nodes|, k requires 0 <= k < |nodes| => contents[nodes[k]].value)
  }

  /** The first index of `x` in `s`. */
  function IndexOf(s: seq<int>, x: int): (i: nat)
    requires x in s
    ensures i < |s| && s[i] == x
    ensures forall j :: 0 <= j < i ==> s[j] != x
  {
    if s[0] == x then 0 else 1 + IndexOf(s[1..], x)
  }

  /** In a sequence without repetitions the index of the element at i is i. */
  lemma IndexOfDistinct(s: seq<int>, i: nat)
    requires Distinct(s) && i < |s|
    ensures IndexOf(s, s[i]) == i
  {
    DistinctAt(s, IndexOf(s, s[i]), i);
  }

  /** After a node is spliced in at index k, the position that was at index k is at
      index k + 1. */
  lemma InsertedIndex(nodes: seq<int>, k: nat, newLoc: int)
    requires k <= |nodes| && Distinct(Positions(nodes[..k] + [newLoc] + nodes[k..]))
    ensures IndexOf(Positions(nodes[..k] + [newLoc] + nodes[k..]), Positions(nodes)[k]) == k + 1
  {
    var p' := Positions(nodes[..k] + [newLoc] + nodes[k..]);
    assert p'[k + 1] == Positions(nodes)[k];
    IndexOfDistinct(p', k + 1);
  }

  /** No slot is occupied twice. */
  lemma NodesDistinct(l: Links, nodes: seq<int>)
    requires Chain(l, nodes)
    ensures Distinct(nodes)
  {
    var p := Positions(nodes);
    forall i, j | 0 <= i < j < |nodes| ensures nodes[i] != nodes[j] {
      assert p[i] == nodes[i] && p[j] == nodes[j];
      DistinctAt(p, i, j);
    }
  }

  // ---------------------------------------------------------------------------
  // Navigation

  /** From every position but the rear, `next` leads to the following position and
      `prev` of that position leads back: moving forward then backward returns. */
  lemma NextThenPrev(l: Links, nodes: seq<int>, avail: seq<int>, k: nat)
    requires Linked(l, nodes, avail)
    requires k < |nodes|
    ensures var s := Positions(nodes)[k];
            && 0 <= l.next[s] < |l.prev|
            && l.next[s] == Positions(nodes)[k + 1]
            && l.next[s] != l.frontLoc
            && l.prev[l.next[s]] == s
  {
    var p := Positions(nodes);
    assert p[k] == nodes[k];
    assert p[k + 1] != p[0];
  }

  /** From every position but the front, `prev` leads to the preceding position and
      `next` of that position leads back. */
  lemma PrevThenNext(l: Links, nodes: seq<int>, avail: seq<int>, k: nat)
    requires Linked(l, nodes, avail)
    requires 0 < k <= |nodes|
    ensures var s := Positions(nodes)[k];
            && s != l.frontLoc
            && 0 <= l.prev[s] < |l.next|
            && l.prev[s] == Positions(nodes)[k - 1]
            && l.prev[s] != Rear
            && l.next[l.prev[s]] == s
  {
    var p := Positions(nodes);
    assert p[k - 1] == nodes[k - 1];
  }

  // ---------------------------------------------------------------------------
  // Insertion

  /** The slot insert fills: the head of the avail chain, or else the first slot never used. */
  function NewSlot(l: Links): (r: int)
    ensures r == l.availLoc || r == l.numItems + 1
    ensures l.availLoc == NoLoc ==> r == l.numItems + 1
  {
    if l.availLoc == NoLoc then l.numItems + 1 else l.availLoc
  }

  /** The links after insert splices a new node in front of slot `loc`, step by step as
      the list does it: take the new slot (advancing the avail chain if it came from
      there), point the new node at `loc`, make it the front or link it after `loc`'s
      predecessor, and make it `loc`'s predecessor. */
  function InsertLinks(l: Links, loc: int): (r: Links)
    requires |l.prev| == |l.next|
    requires 0 <= loc < |l.next| && 0 <= NewSlot(l) < |l.next|
    requires loc != l.frontLoc ==> 0 <= l.prev[loc] < |l.next|
    ensures |r.prev| == |l.prev| && |r.next| == |l.next| && r.numItems == l.numItems + 1
    ensures r.prev[loc] == NewSlot(l)
    ensures l.availLoc != NoLoc ==> r.availLoc == l.next[l.availLoc]
  {
    var newLoc := NewSlot(l);
    var availLoc := if l.availLoc == NoLoc then NoLoc else l.next[l.availLoc];
    var next := l.next[newLoc := loc];
    if loc == l.frontLoc then
      Links(l.prev[newLoc := NoLoc][loc := newLoc], next, newLoc, availLoc, l.numItems + 1)
    else
      var prevLoc := l.prev[loc];
      Links(l.prev[newLoc := prevLoc][loc := newLoc], next[prevLoc := newLoc], l.frontLoc, availLoc, l.numItems + 1)
  }

  /** The slot insert fills is free: it is the avail head, or `numItems + 1` when the
      avail chain is empty, and no node occupies it. */
  lemma NewSlotIsFree(l: Links, nodes: seq<int>, avail: seq<int>)
    requires Linked(l, nodes, avail)
    ensures NewSlot(l) == if avail == [] then l.numItems + 1 else avail[0]
    ensures NewSlot(l) !in nodes && 0 < NewSlot(l)
    ensures l.numItems + 1 < |l.next| ==> NewSlot(l) < |l.next|
  {
    if avail == [] {
      var s := l.numItems + 1;
      assert (s in nodes || s in avail) <==> 1 <= s <= |nodes| + |avail|;
    } else {
      assert avail[0] in avail;
    }
  }

  lemma DistinctInsert(p: seq<int>, k: nat, x: int)
    requires Distinct(p) && x !in p && k <= |p|
    ensures Distinct(p[..k] + [x] + p[k..])
  {
    var p' := p[..k] + [x] + p[k..];
    forall i, j | 0 <= i < j < |p'| ensures p'[i] != p'[j] {
      if i != k && j != k {
        assert p'[i] == p[if i < k then i else i - 1];
        assert p'[j] == p[if j < k then j else j - 1];
        DistinctAt(p, if i < k then i else i - 1, if j < k then j else j - 1);
      } else if i == k {
        assert p'[j] == p[j - 1];
      } else {
        assert p'[i] == p[i];
      }
    }
  }

  /** Splicing the new slot in front of position k keeps the occupied chain linked,
      with the new slot at index k of the node sequence. */
  lemma {:induction false} InsertChain(l: Links, nodes: seq<int>, k: nat)
    requires Chain(l, nodes) && k <= |nodes|
    requires 0 < NewSlot(l) < |l.next| && NewSlot(l) !in nodes
    ensures var loc := Positions(nodes)[k];
            && 0 <= loc < |l.next|
            && (loc == l.frontLoc <==> k == 0)
            && (k > 0 ==> 0 < l.prev[loc] < |l.next| && l.prev[loc] == nodes[k - 1])
            && Chain(InsertLinks(l, loc), nodes[..k] + [NewSlot(l)] + nodes[k..])
  {
    var newLoc := NewSlot(l);
    var p := Positions(nodes);
    var loc := p[k];
    assert newLoc !in p;
    assert k > 0 ==> loc != p[0];
    if k > 0 {
      assert p[k - 1] == nodes[k - 1];
    }
    var l' := InsertLinks(l, loc);
    var nodes' := nodes[..k] + [newLoc] + nodes[k..];
    assert Positions(nodes') == p[..k] + [newLoc] + p[k..];
    DistinctInsert(p, k, newLoc);
    InsertNextLinks(l, nodes, k);
    InsertPrevLinks(l, nodes, k);
  }

  lemma {:induction false} InsertNextLinks(l: Links, nodes: seq<int>, k: nat)
    requires Chain(l, nodes) && k <= |nodes|
    requires 0 < NewSlot(l) < |l.next| && NewSlot(l) !in nodes
    requires k > 0 ==> Positions(nodes)[k] != l.frontLoc && l.prev[Positions(nodes)[k]] == nodes[k - 1]
    requires k == 0 ==> Positions(nodes)[k] == l.frontLoc
    ensures var nodes' := nodes[..k] + [NewSlot(l)] + nodes[k..];
            var l' := InsertLinks(l, Positions(nodes)[k]);
            forall i :: 0 <= i < |nodes'| ==> l'.next[nodes'[i]] == Positions(nodes')[i + 1]
  {
    var newLoc := NewSlot(l);
    var p := Positions(nodes);
    var loc := p[k];
    var l' := InsertLinks(l, loc);
    var nodes' := nodes[..k] + [newLoc] + nodes[k..];
    var p' := Positions(nodes');
    assert p' == p[..k] + [newLoc] + p[k..];
    assert l'.next == if k == 0 then l.next[newLoc := loc] else l.next[newLoc := loc][nodes[k - 1] := newLoc];
    forall i | 0 <= i < |nodes'| ensures l'.next[nodes'[i]] == p'[i + 1] {
      assert nodes'[i] == p'[i];
      if i < k - 1 {
        assert p'[i] == p[i] == nodes[i] && p'[i + 1] == p[i + 1];
        DistinctAt(p, i, k - 1);
        assert nodes[i] != nodes[k - 1];
      } else if i == k - 1 {
        assert p'[i] == nodes[k - 1];
      } else if i > k {
        assert p'[i] == p[i - 1] == nodes[i - 1] && p'[i + 1] == p[i];
        if k > 0 {
          DistinctAt(p, i - 1, k - 1);
        }
        assert k == 0 || nodes[i - 1] != nodes[k - 1];
      }
    }
  }

  lemma {:induction false} InsertPrevLinks(l: Links, nodes: seq<int>, k: nat)
    requires Chain(l, nodes) && k <= |nodes|
    requires 0 < NewSlot(l) < |l.next| && NewSlot(l) !in nodes
    requires k > 0 ==> Positions(nodes)[k] != l.frontLoc && l.prev[Positions(nodes)[k]] == nodes[k - 1]
    requires k == 0 ==> Positions(nodes)[k] == l.frontLoc
    ensures var nodes' := nodes[..k] + [NewSlot(l)] + nodes[k..];
            var l' := InsertLinks(l, Positions(nodes)[k]);
            && l'.frontLoc == Positions(nodes')[0]
            && l'.prev[l'.frontLoc] == NoLoc
            && forall i :: 0 < i <= |nodes'| ==> l'.prev[Positions(nodes')[i]] == Positions(nodes')[i - 1]
  {
    var newLoc := NewSlot(l);
    var p := Positions(nodes);
    var loc := p[k];
    var l' := InsertLinks(l, loc);
    var nodes' := nodes[..k] + [newLoc] + nodes[k..];
    var p' := Positions(nodes');
    assert p' == p[..k] + [newLoc] + p[k..];
    assert newLoc !in p;
    assert l'.prev == (if k == 0 then l.prev[newLoc := NoLoc] else l.prev[newLoc := nodes[k - 1]])[loc := newLoc];
    forall i | 0 < i <= |nodes'| ensures l'.prev[p'[i]] == p'[i - 1] {
      if i < k {
        assert p'[i] == p[i] && p'[i - 1] == p[i - 1];
        DistinctAt(p, i, k);
      } else if i == k {
        assert p'[i - 1] == p[k - 1];
      } else if i > k + 1 {
        assert p'[i] == p[i - 1] && p'[i - 1] == p[i - 2];
        DistinctAt(p, i - 1, k);
      }
    }
    DistinctAt(p, 0, k);
  }

  /** Splicing in a node changes `next` only at the new slot and at a node, so the
      avail chain survives minus its head when the new slot came from there. */
  lemma InsertAvail(l: Links, avail: seq<int>, loc: int)
    requires AvailChain(l, avail) && |l.prev| == |l.next|
    requires 0 <= loc < |l.next| && 0 < NewSlot(l) < |l.next|
    requires loc != l.frontLoc ==> 0 <= l.prev[loc] < |l.next| && l.prev[loc] !in avail
    requires NewSlot(l) == if avail == [] then l.numItems + 1 else avail[0]
    ensures AvailChain(InsertLinks(l, loc), if avail == [] then [] else avail[1..])
  {
    if avail != [] {
      var l' := InsertLinks(l, loc);
      var avail' := avail[1..];
      forall i | 0 <= i < |avail'|
        ensures l'.next[avail'[i]] == if i + 1 < |avail'| then avail'[i + 1] else NoLoc
      {
        InsertAvailAt(l, avail, loc, i + 1);
      }
      DistinctTail(avail);
      assert l.next[avail[0]] == if 1 < |avail| then avail[1] else NoLoc;
      assert forall i :: 0 <= i < |avail'| ==> 0 < avail'[i] < |l'.next|;
    }
  }

  /** A free slot other than the avail head keeps its `next` link when a node is
      spliced in. */
  lemma InsertAvailAt(l: Links, avail: seq<int>, loc: int, i: nat)
    requires AvailChain(l, avail) && |l.prev| == |l.next|
    requires 0 <= loc < |l.next| && 0 < NewSlot(l) < |l.next|
    requires loc != l.frontLoc ==> 0 <= l.prev[loc] < |l.next| && l.prev[loc] !in avail
    requires 0 < i < |avail| && NewSlot(l) == avail[0]
    ensures InsertLinks(l, loc).next[avail[i]] == if i + 1 < |avail| then avail[i + 1] else NoLoc
  {
    DistinctAt(avail, i, 0);
    assert avail[i] in avail;
  }

  /** Dropping the head keeps a sequence free of repetitions. */
  lemma DistinctTail(s: seq<int>)
    requires Distinct(s) && s != []
    ensures Distinct(s[1..])
  {
    var t := s[1..];
    forall i, j | 0 <= i < j < |t| ensures Apart(t, i, j) {
      DistinctAt(s, i + 1, j + 1);
    }
  }

  /** Taking the new slot keeps the occupied and free slots disjoint and packed. */
  lemma InsertPacked(nodes: seq<int>, avail: seq<int>, k: nat, newLoc: int)
    requires Packed(nodes, avail) && Distinct(avail) && k <= |nodes|
    requires newLoc == if avail == [] then |nodes| + 1 else avail[0]
    ensures newLoc !in nodes
    ensures Packed(nodes[..k] + [newLoc] + nodes[k..], if avail == [] then [] else avail[1..])
  {
    var nodes' := nodes[..k] + [newLoc] + nodes[k..];
    var avail' := if avail == [] then [] else avail[1..];
    if avail != [] {
      assert avail[0] in avail;
      assert avail == [avail[0]] + avail';
      forall s | s in avail' ensures s in avail && s != avail[0] {
        var i :| 0 <= i < |avail'| && avail'[i] == s;
        assert avail[i + 1] == s;
        DistinctAt(avail, i + 1, 0);
      }
    } else {
      var s := |nodes| + 1;
      assert (s in nodes || s in avail) <==> 1 <= s <= |nodes| + |avail|;
    }
    assert nodes == nodes[..k] + nodes[k..];
    forall s ensures s in nodes' <==> s in nodes || s == newLoc {
      assert s in nodes' <==> s in nodes[..k] || s == newLoc || s in nodes[k..];
    }
    forall s ensures s in avail <==> s in avail' || (avail != [] && s == newLoc) {
    }
    forall s ensures s in nodes' || s in avail' <==> 1 <= s <= |nodes'| + |avail'| {
      assert s in nodes || s in avail <==> 1 <= s <= |nodes| + |avail|;
    }
    forall s | s in nodes' ensures s !in avail' {
    }
  }

  /** Inserting in front of position k (the rear when k == numItems) keeps the link
      invariant, with the new slot at index k of the node sequence and the avail
      chain losing its head when the slot came from there. It needs a slot beyond
      numItems + 1, which the caller provides by growing the arrays first. */
  lemma {:induction false} InsertKeepsLinked(l: Links, nodes: seq<int>, avail: seq<int>, k: nat)
    requires Linked(l, nodes, avail)
    requires k <= |nodes|
    requires l.numItems + 1 < |l.next|
    ensures NewSlot(l) == if avail == [] then l.numItems + 1 else avail[0]
    ensures var loc := Positions(nodes)[k];
            && 0 <= loc < |l.next| && 0 < NewSlot(l) < |l.next|
            && (loc == l.frontLoc <==> k == 0)
            && (loc != l.frontLoc ==> 0 <= l.prev[loc] < |l.next|)
            && Linked(InsertLinks(l, loc), nodes[..k] + [NewSlot(l)] + nodes[k..],
                      if avail == [] then [] else avail[1..])
  {
    NewSlotIsFree(l, nodes, avail);
    InsertChain(l, nodes, k);
    var loc := Positions(nodes)[k];
    if k > 0 {
      assert nodes[k - 1] in nodes;
    }
    InsertAvail(l, avail, loc);
    InsertPacked(nodes, avail, k, NewSlot(l));
  }

  /** Inserting `item` at the new slot and splicing it in at index k adds `item` to the
      items just before index k and leaves every other item where it was. */
  lemma InsertedItems<T>(contents: seq<Option<T>>, nodes: seq<int>, k: nat, newLoc: int, item: T)
    requires Filled(contents, nodes)
    requires 0 <= newLoc < |contents| && newLoc !in nodes && k <= |nodes|
    ensures Filled(contents[newLoc := Some(item)], nodes[..k] + [newLoc] + nodes[k..])
    ensures var items := Gather(contents, nodes);
            Gather(contents[newLoc := Some(item)], nodes[..k] + [newLoc] + nodes[k..])
              == items[..k] + [item] + items[k..]
  {
    var nodes' := nodes[..k] + [newLoc] + nodes[k..];
    var items := Gather(contents, nodes);
    var c' := contents[newLoc := Some(item)];
    forall i | 0 <= i < |nodes'| ensures 0 <= nodes'[i] < |c'| && c'[nodes'[i]].Some? {
      if i < k {
        assert nodes'[i] == nodes[i];
      } else if i > k {
        assert nodes'[i] == nodes[i - 1];
      }
    }
    var lhs := Gather(c', nodes');
    var rhs := items[..k] + [item] + items[k..];
    forall i | 0 <= i < |lhs| ensures lhs[i] == rhs[i] {
      if i < k {
        assert nodes'[i] == nodes[i];
      } else if i > k {
        assert nodes'[i] == nodes[i - 1];
      }
    }
  }

  /** The whole of insert's splice on values: with a slot beyond numItems + 1, putting
      `item` in the new slot and linking it in front of position k keeps the list
      linked and filled, adds `item` to the items just before index k, and leaves the
      position that was at index k at index k + 1. */
  lemma InsertStep<T>(l: Links, contents: seq<Option<T>>, nodes: seq<int>, avail: seq<int>, k: nat, item: T)
    requires Linked(l, nodes, avail) && Filled(contents, nodes)
    requires k <= |nodes| && l.numItems + 1 < |l.next| && |contents| == |l.next|
    ensures var loc := Positions(nodes)[k];
            var newLoc := NewSlot(l);
            var nodes' := nodes[..k] + [newLoc] + nodes[k..];
            var contents' := contents[newLoc := Some(item)];
            && newLoc == (if avail == [] then l.numItems + 1 else avail[0])
            && 0 <= loc < |l.next| && 0 < newLoc < |l.next|
            && (loc != l.frontLoc ==> 0 <= l.prev[loc] < |l.next|)
            && Linked(InsertLinks(l, loc), nodes', if avail == [] then [] else avail[1..])
            && Filled(contents', nodes')
            && Gather(contents', nodes') == Gather(contents, nodes)[..k] + [item] + Gather(contents, nodes)[k..]
            && IndexOf(Positions(nodes'), loc) == k + 1
  {
    NewSlotIsFree(l, nodes, avail);
    InsertKeepsLinked(l, nodes, avail, k);
    InsertedItems(contents, nodes, k, NewSlot(l), item);
    InsertedIndex(nodes, k, NewSlot(l));
  }

  // ---------------------------------------------------------------------------
  // Removal

  /** The links after remove unlinks the node at slot `loc`, step by step as the list
      does it: point the successor back at the predecessor, make the successor the
      front or point the predecessor at it, and push `loc` on the avail chain. */
  function RemoveLinks(l: Links, loc: int): (r: Links)
    requires |l.prev| == |l.next|
    requires 0 <= loc < |l.next| && 0 <= l.next[loc] < |l.next|
    requires loc != l.frontLoc ==> 0 <= l.prev[loc] < |l.next|
    ensures |r.prev| == |l.prev| && |r.next| == |l.next| && r.numItems == l.numItems - 1
    ensures r.availLoc == loc && r.next[loc] == l.availLoc
  {
    var nextLoc := l.next[loc];
    var prev := l.prev[nextLoc := l.prev[loc]];
    var next := if loc == l.frontLoc then l.next else l.next[l.prev[loc] := nextLoc];
    Links(prev, next[loc := l.availLoc],
          if loc == l.frontLoc then nextLoc else l.frontLoc,
          loc, l.numItems - 1)
  }

  lemma DistinctRemove(p: seq<int>, k: nat)
    requires Distinct(p) && k < |p|
    ensures Distinct(p[..k] + p[k + 1..])
  {
    var p' := p[..k] + p[k + 1..];
    forall i, j | 0 <= i < j < |p'| ensures p'[i] != p'[j] {
      assert p'[i] == p[if i < k then i else i + 1];
      assert p'[j] == p[if j < k then j else j + 1];
      DistinctAt(p, if i < k then i else i + 1, if j < k then j else j + 1);
    }
  }

  /** Unlinking the node at index k keeps the occupied chain linked without it. */
  lemma {:induction false} RemoveChain(l: Links, nodes: seq<int>, k: nat)
    requires Chain(l, nodes) && k < |nodes|
    ensures var loc := nodes[k];
            && 0 < loc < |l.next|
            && l.next[loc] == Positions(nodes)[k + 1] && 0 <= l.next[loc] < |l.next| && l.next[loc] != loc
            && (loc == l.frontLoc <==> k == 0)
            && (k > 0 ==> l.prev[loc] == nodes[k - 1] && 0 < l.prev[loc] < |l.next| && l.prev[loc] != l.next[loc])
            && Chain(RemoveLinks(l, loc), nodes[..k] + nodes[k + 1..])
  {
    var p := Positions(nodes);
    var loc := nodes[k];
    assert p[k] == loc;
    DistinctAt(p, k + 1, k);
    DistinctAt(p, k, 0);
    if k > 0 {
      assert l.prev[p[k]] == p[k - 1] == nodes[k - 1];
      DistinctAt(p, k - 1, k + 1);
    }
    var nodes' := nodes[..k] + nodes[k + 1..];
    assert Positions(nodes') == p[..k] + p[k + 1..];
    DistinctRemove(p, k);
    RemoveNextLinks(l, nodes, k);
    RemovePrevLinks(l, nodes, k);
  }

  lemma RemoveNextLinks(l: Links, nodes: seq<int>, k: nat)
    requires Chain(l, nodes) && k < |nodes|
    requires k > 0 ==> nodes[k] != l.frontLoc && l.prev[nodes[k]] == nodes[k - 1]
    requires k == 0 ==> nodes[k] == l.frontLoc
    ensures var nodes' := nodes[..k] + nodes[k + 1..];
            var l' := RemoveLinks(l, nodes[k]);
            forall i :: 0 <= i < |nodes'| ==> l'.next[nodes'[i]] == Positions(nodes')[i + 1]
  {
    var nodes' := nodes[..k] + nodes[k + 1..];
    forall i | 0 <= i < |nodes'| ensures RemoveLinks(l, nodes[k]).next[nodes'[i]] == Positions(nodes')[i + 1] {
      RemoveNextAt(l, nodes, k, i);
    }
  }

  /** The `next` link of the node at index i of the shortened chain. */
  lemma RemoveNextAt(l: Links, nodes: seq<int>, k: nat, i: nat)
    requires Chain(l, nodes) && k < |nodes| && i + 1 < |nodes|
    requires k > 0 ==> nodes[k] != l.frontLoc && l.prev[nodes[k]] == nodes[k - 1]
    requires k == 0 ==> nodes[k] == l.frontLoc
    ensures var nodes' := nodes[..k] + nodes[k + 1..];
            RemoveLinks(l, nodes[k]).next[nodes'[i]] == Positions(nodes')[i + 1]
  {
    var p := Positions(nodes);
    var loc := nodes[k];
    assert p[k] == loc;
    var nextLoc := p[k + 1];
    var l' := RemoveLinks(l, loc);
    var nodes' := nodes[..k] + nodes[k + 1..];
    var p' := Positions(nodes');
    if i < k - 1 {
      assert nodes'[i] == nodes[i] && p'[i + 1] == p[i + 1];
      assert p[i] == nodes[i] && p[k - 1] == nodes[k - 1];
      DistinctAt(p, i, k - 1);
      DistinctAt(p, i, k);
    } else if i == k - 1 {
      assert nodes'[i] == nodes[k - 1] && p'[i + 1] == p[k + 1];
      DistinctAt(p, k - 1, k);
    } else {
      assert nodes'[i] == nodes[i + 1] && p'[i + 1] == p[i + 2];
      assert p[i + 1] == nodes[i + 1];
      DistinctAt(p, i + 1, k);
      if k > 0 {
        assert p[k - 1] == nodes[k - 1];
        DistinctAt(p, i + 1, k - 1);
      }
    }
  }

  lemma {:induction false} RemovePrevLinks(l: Links, nodes: seq<int>, k: nat)
    requires Chain(l, nodes) && k < |nodes|
    requires k > 0 ==> nodes[k] != l.frontLoc && l.prev[nodes[k]] == nodes[k - 1]
    requires k == 0 ==> nodes[k] == l.frontLoc
    ensures var nodes' := nodes[..k] + nodes[k + 1..];
            var l' := RemoveLinks(l, nodes[k]);
            && l'.frontLoc == Positions(nodes')[0]
            && l'.prev[l'.frontLoc] == NoLoc
            && forall i :: 0 < i <= |nodes'| ==> l'.prev[Positions(nodes')[i]] == Positions(nodes')[i - 1]
  {
    var p := Positions(nodes);
    var loc := nodes[k];
    assert p[k] == loc;
    var nextLoc := p[k + 1];
    assert l.prev[nextLoc] == loc;
    var l' := RemoveLinks(l, loc);
    var nodes' := nodes[..k] + nodes[k + 1..];
    var p' := Positions(nodes');
    assert p' == p[..k] + p[k + 1..];
    assert l'.prev == l.prev[nextLoc := if k == 0 then NoLoc else nodes[k - 1]];
    forall i | 0 < i <= |nodes'| ensures l'.prev[p'[i]] == p'[i - 1] {
      if i < k {
        assert p'[i] == p[i] && p'[i - 1] == p[i - 1];
        DistinctAt(p, i, k + 1);
      } else if i == k {
        assert p'[i] == nextLoc && p'[i - 1] == p[k - 1];
      } else {
        assert p'[i] == p[i + 1] && p'[i - 1] == p[i];
        DistinctAt(p, i + 1, k + 1);
      }
    }
    DistinctAt(p, 0, k + 1);
  }

  /** Unlinking changes `next` only at a node, so pushing the freed slot on the avail
      chain yields a chain that starts at it and continues with the old one. */
  lemma RemoveAvail(l: Links, avail: seq<int>, loc: int)
    requires AvailChain(l, avail) && |l.prev| == |l.next|
    requires 0 < loc < |l.next| && 0 <= l.next[loc] < |l.next| && loc !in avail
    requires loc != l.frontLoc ==> 0 <= l.prev[loc] < |l.next| && l.prev[loc] !in avail
    ensures AvailChain(RemoveLinks(l, loc), [loc] + avail)
  {
    var l' := RemoveLinks(l, loc);
    var avail' := [loc] + avail;
    forall i | 0 <= i < |avail'|
      ensures l'.next[avail'[i]] == if i + 1 < |avail'| then avail'[i + 1] else NoLoc
    {
      if i > 0 {
        RemoveAvailAt(l, avail, loc, i - 1);
      }
    }
    DistinctCons(loc, avail);
  }

  /** A free slot keeps its `next` link when a node is unlinked. */
  lemma RemoveAvailAt(l: Links, avail: seq<int>, loc: int, i: nat)
    requires AvailChain(l, avail) && |l.prev| == |l.next|
    requires 0 < loc < |l.next| && 0 <= l.next[loc] < |l.next| && loc !in avail
    requires loc != l.frontLoc ==> 0 <= l.prev[loc] < |l.next| && l.prev[loc] !in avail
    requires i < |avail|
    ensures RemoveLinks(l, loc).next[avail[i]] == if i + 1 < |avail| then avail[i + 1] else NoLoc
  {
    assert avail[i] in avail;
  }

  /** Putting a new entry in front keeps a sequence free of repetitions. */
  lemma DistinctCons(x: int, s: seq<int>)
    requires Distinct(s) && x !in s
    ensures Distinct([x] + s)
  {
    var t := [x] + s;
    forall i, j | 0 <= i < j < |t| ensures Apart(t, i, j) {
      assert t[j] == s[j - 1];
      if i > 0 {
        DistinctAt(s, i - 1, j - 1);
      }
    }
  }

  /** Moving a node's slot to the avail chain keeps the slots disjoint and packed. */
  lemma RemovePacked(nodes: seq<int>, avail: seq<int>, k: nat)
    requires Packed(nodes, avail) && k < |nodes| && Distinct(nodes)
    ensures nodes[k] !in avail
    ensures Packed(nodes[..k] + nodes[k + 1..], [nodes[k]] + avail)
  {
    var loc := nodes[k];
    var nodes' := nodes[..k] + nodes[k + 1..];
    var avail' := [loc] + avail;
    assert nodes == nodes[..k] + [loc] + nodes[k + 1..];
    forall s ensures s in nodes <==> s in nodes' || s == loc {
      assert s in nodes <==> s in nodes[..k] || s == loc || s in nodes[k + 1..];
    }
    assert loc !in nodes' by {
      forall i | 0 <= i < |nodes'| ensures nodes'[i] != loc {
        assert nodes'[i] == nodes[if i < k then i else i + 1];
        DistinctAt(nodes, if i < k then i else i + 1, k);
      }
    }
    forall s ensures s in nodes' || s in avail' <==> 1 <= s <= |nodes'| + |avail'| {
      assert s in nodes || s in avail <==> 1 <= s <= |nodes| + |avail|;
    }
    forall s | s in nodes' ensures s !in avail' {
      assert s in nodes;
    }
  }

  /** Removing the node at index k (not the rear) keeps the link invariant, with that
      slot gone from the node sequence and pushed on the front of the avail chain. */
  lemma {:induction false} RemoveKeepsLinked(l: Links, nodes: seq<int>, avail: seq<int>, k: nat)
    requires Linked(l, nodes, avail)
    requires k < |nodes|
    ensures var loc := nodes[k];
            && 0 < loc < |l.next|
            && l.next[loc] == Positions(nodes)[k + 1] && 0 <= l.next[loc] < |l.next| && l.next[loc] != loc
            && (loc == l.frontLoc <==> k == 0)
            && (k > 0 ==> l.prev[loc] == nodes[k - 1] && 0 < l.prev[loc] < |l.next| && l.prev[loc] != l.next[loc])
            && Linked(RemoveLinks(l, loc), nodes[..k] + nodes[k + 1..], [loc] + avail)
  {
    RemoveChain(l, nodes, k);
    var loc := nodes[k];
    assert loc in nodes;
    if k > 0 {
      assert nodes[k - 1] in nodes;
    }
    NodesDistinct(l, nodes);
    RemoveAvail(l, avail, loc);
    RemovePacked(nodes, avail, k);
  }

  /** Unlinking the node at index k drops that item and keeps every other item in order. */
  lemma RemovedItems<T>(contents: seq<Option<T>>, nodes: seq<int>, k: nat)
    requires Filled(contents, nodes)
    requires k < |nodes|
    ensures Filled(contents, nodes[..k] + nodes[k + 1..])
    ensures var items := Gather(contents, nodes);
            Gather(contents, nodes[..k] + nodes[k + 1..]) == items[..k] + items[k + 1..]
  {
    var items := Gather(contents, nodes);
    var rest := nodes[..k] + nodes[k + 1..];
    forall i | 0 <= i < |rest| ensures rest[i] == nodes[if i < k then i else i + 1] {
    }
    var lhs := Gather(contents, nodes[..k] + nodes[k + 1..]);
    forall i | 0 <= i < |lhs| ensures lhs[i] == (items[..k] + items[k + 1..])[i] {
      assert (nodes[..k] + nodes[k + 1..])[i] == nodes[if i < k then i else i + 1];
    }
  }

  /** Overwriting the contents of the node at index k replaces exactly the k-th item. */
  lemma ReplacedItems<T>(contents: seq<Option<T>>, nodes: seq<int>, k: nat, item: T)
    requires Filled(contents, nodes) && Distinct(nodes) && k < |nodes|
    ensures Filled(contents[nodes[k] := Some(item)], nodes)
    ensures Gather(contents[nodes[k] := Some(item)], nodes) == Gather(contents, nodes)[k := item]
  {
    var c' := contents[nodes[k] := Some(item)];
    forall i | 0 <= i < |nodes| ensures c'[nodes[i]] == if i == k then Some(item) else contents[nodes[i]] {
      DistinctAt(nodes, i, k);
    }
  }

  /** Copying slots 0..last into a new array keeps every item whose slot is at most last. */
  lemma CopiedItems<T>(contents: seq<Option<T>>, nodes: seq<int>, last: int, newLen: nat)
    requires Filled(contents, nodes) && -1 <= last < |contents| && last < newLen
    requires forall k :: 0 <= k < |nodes| ==> nodes[k] <= last
    ensures Filled(CopyUpTo(contents, last, newLen, None), nodes)
    ensures Gather(CopyUpTo(contents, last, newLen, None), nodes) == Gather(contents, nodes)
  {
  }

  /** The whole of remove's unlinking on values: unlinking the node at index k keeps
      the list linked and filled without it, pushes its slot on the avail chain, drops
      its item, and leaves its successor at index k. */
  lemma RemoveStep<T>(l: Links, contents: seq<Option<T>>, nodes: seq<int>, avail: seq<int>, k: nat)
    requires Linked(l, nodes, avail) && Filled(contents, nodes) && k < |nodes|
    ensures var loc := nodes[k];
            var nodes' := nodes[..k] + nodes[k + 1..];
            && 0 < loc < |l.next| && 0 <= l.next[loc] < |l.next| && l.next[loc] != loc
            && (loc != l.frontLoc ==> 0 <= l.prev[loc] < |l.next|)
            && Linked(RemoveLinks(l, loc), nodes', [loc] + avail)
            && Filled(contents, nodes')
            && Gather(contents, nodes') == Gather(contents, nodes)[..k] + Gather(contents, nodes)[k + 1..]
            && Positions(nodes')[k] == l.next[loc]
            && IndexOf(Positions(nodes'), l.next[loc]) == k
  {
    RemoveKeepsLinked(l, nodes, avail, k);
    RemovedItems(contents, nodes, k);
    var nodes' := nodes[..k] + nodes[k + 1..];
    assert Positions(nodes')[k] == Positions(nodes)[k + 1];
    IndexOfDistinct(Positions(nodes'), k);
  }

  // ---------------------------------------------------------------------------
  // Reallocation

  /** An array of length `newLen` holding `a[0..last]` and `fill` elsewhere: what the
      copying loop of changeAryLen leaves in a freshly allocated array. */
  function CopyUpTo<X>(a: seq<X>, last: int, newLen: nat, fill: X): (r: seq<X>)
    requires -1 <= last < |a| && last < newLen
    ensures |r| == newLen
    ensures forall i :: 0 <= i < newLen ==> r[i] == if i <= last then a[i] else fill
  {
    seq(newLen, i requires 0 <= i < newLen => if i <= last then a[i] else fill)
  }

  /** The links after changeAryLen(newLen): both link arrays reallocated with slots
      0..numItems copied and the rest zero. */
  function ResizedLinks(l: Links, newLen: nat): (r: Links)
    requires 0 <= l.numItems < |l.prev| && l.numItems < |l.next| && l.numItems < newLen
    ensures |r.prev| == newLen && |r.next| == newLen
  {
    Links(CopyUpTo(l.prev, l.numItems, newLen, 0), CopyUpTo(l.next, l.numItems, newLen, 0),
          l.frontLoc, l.availLoc, l.numItems)
  }

  /** When every occupied or free slot is at most numItems (which holds exactly when the
      avail chain is empty), copying slots 0..numItems into arrays of any larger length
      loses no node and no link. */
  lemma ResizeKeepsLinked(l: Links, nodes: seq<int>, avail: seq<int>, newLen: nat)
    requires Linked(l, nodes, avail)
    requires forall s :: s in nodes || s in avail ==> s <= l.numItems
    requires l.numItems < newLen
    ensures avail == []
    ensures Linked(ResizedLinks(l, newLen), nodes, avail)
  {
    var h := |nodes| + |avail|;
    assert (h in nodes || h in avail) <==> 1 <= h <= |nodes| + |avail|;
    var l' := ResizedLinks(l, newLen);
    var p := Positions(nodes);
    forall k | 0 <= k <= |nodes| ensures 0 <= p[k] <= l.numItems {
      if k < |nodes| {
        assert p[k] in nodes;
      }
    }
    forall k | 0 <= k < |nodes| ensures 0 < nodes[k] < |l'.next| && l'.next[nodes[k]] == p[k + 1] {
      assert p[k] == nodes[k];
    }
    forall k | 0 < k <= |nodes| ensures l'.prev[p[k]] == p[k - 1] {
    }
    assert l'.prev[l'.frontLoc] == NoLoc;
  }

  /** The shrink test of remove: the arrays are less than a quarter full and halving
      them keeps them at least the minimum length. */
  predicate ShrinkDue(numItems: int, aryLen: int)
    ensures ShrinkDue(numItems, aryLen) ==> MinAryLen <= aryLen / 2 && numItems < aryLen / 2
  {
    numItems < aryLen / 4 && aryLen >= 2 * MinAryLen
  }

  /** Whenever the avail chain is non-empty, which it always is right after a removal,
      the highest slot ever handed out lies above numItems, so copying only slots
      0..numItems breaks the link invariant: the shrinking reallocation of remove
      always corrupts the list. */
  lemma {:induction false} ResizeDropsUsedSlot(l: Links, nodes: seq<int>, avail: seq<int>, newLen: nat)
    requires Linked(l, nodes, avail)
    requires avail != []
    requires l.numItems < newLen
    ensures l.numItems < |nodes| + |avail| && (|nodes| + |avail| in nodes || |nodes| + |avail| in avail)
    ensures !Linked(ResizedLinks(l, newLen), nodes, avail)
  {
    var h := |nodes| + |avail|;
    assert h in nodes || h in avail;
    var l' := ResizedLinks(l, newLen);
    var p := Positions(nodes);
    if h in nodes {
      var k :| 0 <= k < |nodes| && nodes[k] == h;
      assert p[k] == h;
      if newLen <= h {
        assert !(0 < nodes[k] < |l'.next|);
      } else if k == 0 {
        assert l'.prev[l'.frontLoc] != NoLoc;
      } else {
        assert 0 < nodes[k - 1];
        assert l'.prev[p[k]] != p[k - 1];
      }
    } else {
      var k :| 0 <= k < |avail| && avail[k] == h;
      if newLen <= h {
        assert !(0 < avail[k] < |l'.next|);
      } else {
        assert k + 1 < |avail| ==> 0 < avail[k + 1];
        assert l'.next[avail[k]] != if k + 1 < |avail| then avail[k + 1] else NoLoc;
      }
    }
  }

  /** Remove as written: unlinking the node at index k and then, when the shrink test
      passes, reallocating with changeAryLen(len / 2) never yields a linked list. */
  lemma RemoveThenShrinkBreaksList(l: Links, nodes: seq<int>, avail: seq<int>, k: nat)
    requires Linked(l, nodes, avail)
    requires k < |nodes|
    requires ShrinkDue(l.numItems - 1, |l.next|)
    ensures 0 < nodes[k] < |l.next| && 0 <= l.next[nodes[k]] < |l.next|
    ensures k > 0 ==> nodes[k] != l.frontLoc && 0 <= l.prev[nodes[k]] < |l.next|
    ensures var l' := RemoveLinks(l, nodes[k]);
            && l'.numItems < |l'.next| / 2
            && !Linked(ResizedLinks(l', |l.next| / 2), nodes[..k] + nodes[k + 1..], [nodes[k]] + avail)
  {
    RemoveKeepsLinked(l, nodes, avail, k);
    ResizeDropsUsedSlot(RemoveLinks(l, nodes[k]), nodes[..k] + nodes[k + 1..], [nodes[k]] + avail, |l.next| / 2);
  }

  /** A state the list reaches: 14 inserts through a cursor at the rear fill slots
      1..14 and grow the arrays 8 -> 14 -> 26; moving that cursor to the front and
      removing 8 times frees slots 1..8. */
  function ScenarioLinks(): Links
  {
    Links(seq(26, i => if i == 0 then 14 else if i <= 9 then NoLoc else if i <= 14 then i - 1 else 0),
          seq(26, i => if i <= 1 then NoLoc else if i <= 8 then i - 1 else if i <= 13 then i + 1 else 0),
          9, 8, 6)
  }

  lemma ScenarioChain()
    ensures Chain(ScenarioLinks(), [9, 10, 11, 12, 13, 14])
  {
    var l := ScenarioLinks();
    var nodes := [9, 10, 11, 12, 13, 14];
    var p := Positions(nodes);
    assert p == [9, 10, 11, 12, 13, 14, 0];
    forall i | 0 <= i < |p| ensures p[i] == if i < 6 then 9 + i else 0 {
    }
    forall i, j | 0 <= i < j < |p| ensures Apart(p, i, j) {
    }
    forall k | 0 <= k < |nodes| ensures l.next[nodes[k]] == p[k + 1] {
      assert nodes[k] == 9 + k;
    }
    forall k | 0 < k <= |nodes| ensures l.prev[p[k]] == p[k - 1] {
    }
  }

  lemma ScenarioAvail()
    ensures AvailChain(ScenarioLinks(), [8, 7, 6, 5, 4, 3, 2, 1])
  {
    var l := ScenarioLinks();
    var avail := [8, 7, 6, 5, 4, 3, 2, 1];
    forall k | 0 <= k < |avail| ensures l.next[avail[k]] == if k + 1 < |avail| then avail[k + 1] else NoLoc {
      assert avail[k] == 8 - k;
    }
    forall i, j | 0 <= i < j < |avail| ensures avail[i] != avail[j] {
      assert avail[i] == 8 - i && avail[j] == 8 - j;
    }
  }

  lemma ScenarioPacked()
    ensures Packed([9, 10, 11, 12, 13, 14], [8, 7, 6, 5, 4, 3, 2, 1])
  {
    var nodes := [9, 10, 11, 12, 13, 14];
    var avail := [8, 7, 6, 5, 4, 3, 2, 1];
    forall s ensures s in nodes || s in avail <==> 1 <= s <= |nodes| + |avail| {
      if 1 <= s <= 8 {
        assert avail[8 - s] == s;
      } else if 9 <= s <= 14 {
        assert nodes[s - 9] == s;
      }
    }
  }

  /** In the state above the ninth removal (of slot 9, at the front) passes the shrink
      test, and the reallocation to 13 slots keeps only slots 0..5 although the
      remaining items sit in slots 10..14: the new front slot 10 leads straight to the
      rear sentinel, and the freed slot 9 heads an avail chain that also ends there. */
  lemma ShrinkScenario()
    ensures var l := ScenarioLinks();
            && Linked(l, [9, 10, 11, 12, 13, 14], [8, 7, 6, 5, 4, 3, 2, 1])
            && ShrinkDue(l.numItems - 1, |l.next|)
            && RemoveLinks(l, 9).frontLoc == 10
            && RemoveLinks(l, 9).availLoc == 9
            && ResizedLinks(RemoveLinks(l, 9), 13).next[10] == Rear
            && ResizedLinks(RemoveLinks(l, 9), 13).next[9] == Rear
  {
    ScenarioChain();
    ScenarioAvail();
    ScenarioPacked();
  }
}
