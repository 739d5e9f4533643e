/** The array-backed positional list with cursors. A `PosList` keeps its items in
    four parallel arrays (`contents`, `prev`, `next`, `refCntr`) whose link part is
    described by the module SlotLinks; a `Cursor` is a handle on one list holding
    the slot index it rests on. The exceptions the Java class throws become error
    results that leave every field as it was. */
module PosListViaArray {
  import opened SlotLinks

  /** Why a cursor operation refused to run. */
  datatype Error =
    | AtRearError      // getItem, toNext, remove, replace, swapItems at the rear
    | AtFrontError     // toPrev at the front
    | SharedNodeError  // remove at a node on which other cursors rest
    | OtherListError   // setTo with a cursor of another list

  /** The outcome of an operation that returns no value. */
  datatype Outcome = Done | Failed(error: Error)

  /** The outcome of an operation that returns a value. */
  datatype Result<R> = Ok(value: R) | Err(error: Error)

  /** The reference counts after a cursor moves from slot `from` to slot `to`: one
      less at `from`, then one more at `to`. */
  function Moved(counts: seq<int>, from: int, to: int): (r: seq<int>)
    requires 0 <= from < |counts| && 0 <= to < |counts|
    ensures |r| == |counts|
    ensures forall i :: 0 <= i < |r| ==>
              r[i] == counts[i] - (if i == from then 1 else 0) + (if i == to then 1 else 0)
  {
    var left := counts[from := counts[from] - 1];
    left[to := left[to] + 1]
  }

  /** Registering a key twice keeps the second value. */
  lemma UpdateTwice<K, V>(m: map<K, V>, k: K, a: V, b: V)
    ensures m[k := a][k := b] == m[k := b]
  {
  }

  /** Counting a new cursor at slot `at` and then moving it to `to` counts it at `to`. */
  lemma CountThenMove(counts: seq<int>, at: int, to: int)
    requires 0 <= at < |counts| && 0 <= to < |counts|
    ensures Moved(counts[at := counts[at] + 1], at, to) == counts[to := counts[to] + 1]
  {
  }

  // The reference counts and the cursors' places are stated over a map from every
  // cursor handed out for a list to the slot it rests on (NoLoc once disposed).

  /** The cursors resting on slot i. */
  ghost function CursorsAt<T>(locs: map<Cursor<T>, int>, i: int): set<Cursor<T>>
  {
    set c | c in locs && locs[c] == i
  }

  /** counts[i] is the number of cursors resting on slot i, for every slot i. */
  ghost predicate CountsMatch<T>(counts: seq<int>, locs: map<Cursor<T>, int>)
  {
    forall i :: 0 <= i < |counts| ==> counts[i] == |CursorsAt(locs, i)|
  }

  /** Every cursor rests on one of the positions of nodes, or is disposed. */
  ghost predicate AllPlaced<T>(locs: map<Cursor<T>, int>, nodes: seq<int>)
  {
    forall c :: c in locs ==> locs[c] == NoLoc || locs[c] in Positions(nodes)
  }

  /** A new cursor registered on slot `at` is counted there and nowhere else. */
  lemma CountsAfterNew<T>(counts: seq<int>, locs: map<Cursor<T>, int>, c: Cursor<T>, at: int)
    requires CountsMatch(counts, locs) && c !in locs && 0 <= at < |counts|
    ensures CountsMatch(counts[at := counts[at] + 1], locs[c := at])
  {
    var locs' := locs[c := at];
    forall i | 0 <= i < |counts| ensures counts[at := counts[at] + 1][i] == |CursorsAt(locs', i)| {
      if i == at {
        assert CursorsAt(locs', i) == CursorsAt(locs, i) + {c};
      } else {
        assert CursorsAt(locs', i) == CursorsAt(locs, i);
      }
    }
  }

  /** Moving cursor c from its slot to slot `to` moves one count with it. */
  lemma CountsAfterMove<T>(counts: seq<int>, locs: map<Cursor<T>, int>, c: Cursor<T>, to: int)
    requires CountsMatch(counts, locs) && c in locs
    requires 0 <= locs[c] < |counts| && 0 <= to < |counts|
    ensures CountsMatch(Moved(counts, locs[c], to), locs[c := to])
  {
    var from := locs[c];
    var locs' := locs[c := to];
    forall i | 0 <= i < |counts| ensures Moved(counts, from, to)[i] == |CursorsAt(locs', i)| {
      if i == from && i != to {
        assert CursorsAt(locs', i) == CursorsAt(locs, i) - {c};
      } else if i == to && i != from {
        assert CursorsAt(locs', i) == CursorsAt(locs, i) + {c};
      } else {
        assert CursorsAt(locs', i) == CursorsAt(locs, i);
      }
    }
  }

  /** Disposing of cursor c takes its count off its slot. */
  lemma CountsAfterDispose<T>(counts: seq<int>, locs: map<Cursor<T>, int>, c: Cursor<T>)
    requires CountsMatch(counts, locs) && c in locs && 0 <= locs[c] < |counts|
    ensures CountsMatch(counts[locs[c] := counts[locs[c]] - 1], locs[c := NoLoc])
  {
    var from := locs[c];
    var locs' := locs[c := NoLoc];
    forall i | 0 <= i < |counts| ensures counts[from := counts[from] - 1][i] == |CursorsAt(locs', i)| {
      if i == from {
        assert CursorsAt(locs', i) == CursorsAt(locs, i) - {c};
      } else {
        assert CursorsAt(locs', i) == CursorsAt(locs, i);
      }
    }
  }

  /** When no cursor rests above slot last, the counts of slots 0..last, copied into
      an array of any larger length with zeros above, stay accurate. */
  lemma CountsAfterResize<T>(counts: seq<int>, locs: map<Cursor<T>, int>, last: int, newLen: nat)
    requires CountsMatch(counts, locs) && -1 <= last < |counts| && last < newLen
    requires forall c :: c in locs ==> locs[c] <= last
    ensures CountsMatch(CopyUpTo(counts, last, newLen, 0), locs)
  {
    forall i | 0 <= i < newLen ensures CopyUpTo(counts, last, newLen, 0)[i] == |CursorsAt(locs, i)| {
      if last < i {
        assert CursorsAt(locs, i) == {};
      }
    }
  }

  /** A slot counted at most once holds only the cursor c resting there. */
  lemma AloneAt<T>(counts: seq<int>, locs: map<Cursor<T>, int>, c: Cursor<T>)
    requires CountsMatch(counts, locs) && c in locs && 0 <= locs[c] < |counts|
    requires counts[locs[c]] <= 1
    ensures counts[locs[c]] == 1
    ensures forall d :: d in locs && d != c ==> locs[d] != locs[c]
  {
    var here := CursorsAt(locs, locs[c]);
    assert c in here;
    assert |here - {c}| == 0;
    assert here - {c} == {};
    forall d | d in locs && d != c ensures locs[d] != locs[c] {
      assert d !in here - {c};
    }
  }

  /** A slot on which no cursor but c rests is counted exactly once. */
  lemma OnlyAt<T>(counts: seq<int>, locs: map<Cursor<T>, int>, c: Cursor<T>)
    requires CountsMatch(counts, locs) && c in locs && 0 <= locs[c] < |counts|
    requires forall d :: d in locs && d != c ==> locs[d] != locs[c]
    ensures counts[locs[c]] == 1
  {
    assert CursorsAt(locs, locs[c]) == {c};
  }

  /** Moving cursor c to a position, or disposing of it, keeps every cursor placed. */
  lemma PlacedAfterMove<T>(locs: map<Cursor<T>, int>, nodes: seq<int>, c: Cursor<T>, to: int)
    requires AllPlaced(locs - {c}, nodes) && (to == NoLoc || to in Positions(nodes))
    ensures AllPlaced(locs[c := to], nodes)
  {
    var locs' := locs[c := to];
    forall d | d in locs' ensures locs'[d] == NoLoc || locs'[d] in Positions(nodes) {
      if d != c {
        assert d in locs - {c};
      }
    }
  }

  /** When the cursor c is the only one on the node at index k, every other cursor
      stays placed once that node is unlinked. */
  lemma PlacedAfterRemoveAlone<T>(counts: seq<int>, locs: map<Cursor<T>, int>, nodes: seq<int>, c: Cursor<T>, k: nat)
    requires CountsMatch(counts, locs) && AllPlaced(locs, nodes)
    requires k < |nodes| && c in locs && locs[c] == nodes[k] && 0 <= nodes[k] < |counts|
    requires counts[nodes[k]] <= 1
    ensures counts[nodes[k]] == 1
    ensures AllPlaced(locs - {c}, nodes[..k] + nodes[k + 1..])
  {
    AloneAt(counts, locs, c);
    var others := locs - {c};
    assert AllPlaced(others, nodes) by {
      forall d | d in others ensures others[d] == NoLoc || others[d] in Positions(nodes) {
        assert d in locs;
      }
    }
    PlacedAfterRemove(others, nodes, k);
  }

  /** Splicing a node in keeps every position, so every cursor stays placed. */
  lemma PlacedAfterInsert<T>(locs: map<Cursor<T>, int>, nodes: seq<int>, k: nat, newLoc: int)
    requires AllPlaced(locs, nodes) && k <= |nodes|
    ensures AllPlaced(locs, nodes[..k] + [newLoc] + nodes[k..])
  {
    var p' := Positions(nodes[..k] + [newLoc] + nodes[k..]);
    forall c | c in locs ensures locs[c] == NoLoc || locs[c] in p' {
      if locs[c] != NoLoc {
        var j := IndexOf(Positions(nodes), locs[c]);
        assert p'[if j < k then j else j + 1] == locs[c];
      }
    }
  }

  /** Unlinking the node at index k keeps every cursor placed that does not rest on it. */
  lemma PlacedAfterRemove<T>(locs: map<Cursor<T>, int>, nodes: seq<int>, k: nat)
    requires AllPlaced(locs, nodes) && k < |nodes|
    requires forall c :: c in locs ==> locs[c] != nodes[k]
    ensures AllPlaced(locs, nodes[..k] + nodes[k + 1..])
  {
    var p' := Positions(nodes[..k] + nodes[k + 1..]);
    forall c | c in locs ensures locs[c] == NoLoc || locs[c] in p' {
      if locs[c] != NoLoc {
        var j := IndexOf(Positions(nodes), locs[c]);
        assert j != k;
        assert p'[if j < k then j else j - 1] == locs[c];
      }
    }
  }

  /** Fresh arrays of length newLen holding slots 0..last of the given ones, null or
      zero elsewhere: the allocation and copying loop of changeAryLen. */
  method CopiedArrays<T>(contents: array<Option<T>>, prev: array<int>, next: array<int>, refCntr: array<int>,
                         last: int, newLen: int)
    returns (newContents: array<Option<T>>, newPrev: array<int>, newNext: array<int>, newRefCntr: array<int>)
    requires -1 <= last < contents.Length && last < prev.Length && last < next.Length && last < refCntr.Length
    requires last < newLen
    ensures fresh(newContents) && fresh(newPrev) && fresh(newNext) && fresh(newRefCntr)
    ensures newPrev != newNext && newPrev != newRefCntr && newNext != newRefCntr
    ensures newContents[..] == CopyUpTo(contents[..], last, newLen, None)
    ensures newPrev[..] == CopyUpTo(prev[..], last, newLen, 0)
    ensures newNext[..] == CopyUpTo(next[..], last, newLen, 0)
    ensures newRefCntr[..] == CopyUpTo(refCntr[..], last, newLen, 0)
  {
    newContents := new Option<T>[newLen](_ => None);
    newPrev := new int[newLen](_ => 0);
    newNext := new int[newLen](_ => 0);
    newRefCntr := new int[newLen](_ => 0);
    for i := 0 to last + 1
      modifies newContents, newPrev, newNext, newRefCntr
      invariant forall j :: 0 <= j < newLen ==> newContents[j] == if j < i then contents[j] else None
      invariant forall j :: 0 <= j < newLen ==> newPrev[j] == if j < i then prev[j] else 0
      invariant forall j :: 0 <= j < newLen ==> newNext[j] == if j < i then next[j] else 0
      invariant forall j :: 0 <= j < newLen ==> newRefCntr[j] == if j < i then refCntr[j] else 0
    {
      newContents[i] := contents[i];
      newPrev[i] := prev[i];
      newNext[i] := next[i];
      newRefCntr[i] := refCntr[i];
    }
  }

  class PosList<T> {
    var contents: array<Option<T>>
    var prev: array<int>
    var next: array<int>
    var refCntr: array<int>
    var frontLoc: int
    var numItems: int
    var availLoc: int

    /** The occupied slots, front to rear. */
    ghost var nodes: seq<int>
    /** The avail chain, head first. */
    ghost var avail: seq<int>
    /** The slot each cursor handed out for this list rests on; NoLoc once disposed. */
    ghost var cursorLocs: map<Cursor<T>, int>

    ghost function Frame(): set<object>
      reads this
    {
      {this, contents, prev, next, refCntr}
    }

    function LinksOf(): Links
      reads this, prev, next
    {
      Links(prev[..], next[..], frontLoc, availLoc, numItems)
    }

    /** The four arrays have one length, at least the minimum, and the three int
        arrays are distinct objects. */
    ghost predicate Shape()
      reads this
    {
      && prev.Length == contents.Length && next.Length == contents.Length
      && refCntr.Length == contents.Length
      && prev != next && prev != refCntr && next != refCntr
      && MinAryLen <= contents.Length
    }

    /** Everything the list keeps true, except possibly where cursor d rests. */
    ghost predicate ValidExcept(d: Cursor<T>)
      reads Frame()
    {
      && Shape()
      && Linked(LinksOf(), nodes, avail)
      && Filled(contents[..], nodes)
      && CountsMatch(refCntr[..], cursorLocs)
      && AllPlaced(cursorLocs - {d}, nodes)
    }

    ghost predicate Valid()
      reads Frame()
    {
      && Shape()
      && Linked(LinksOf(), nodes, avail)
      && Filled(contents[..], nodes)
      && CountsMatch(refCntr[..], cursorLocs)
      && AllPlaced(cursorLocs, nodes)
    }

    /** The items of the list, front to rear. */
    ghost function Items(): seq<T>
      reads this, contents
      requires Filled(contents[..], nodes)
    {
      Gather(contents[..], nodes)
    }

    /** A new list is empty, with arrays of the initial length, no free slot and no cursor. */
    constructor ()
      ensures Valid() && Items() == []
      ensures fresh(contents) && fresh(prev) && fresh(next) && fresh(refCntr)
      ensures contents.Length == InitAryLen
      ensures numItems == 0 && frontLoc == Rear && availLoc == NoLoc
      ensures nodes == [] && avail == [] && cursorLocs == map[]
    {
      contents := new Option<T>[InitAryLen](_ => None);
      prev := new int[InitAryLen](_ => 0);
      next := new int[InitAryLen](_ => 0);
      refCntr := new int[InitAryLen](_ => 0);
      numItems := 0;
      frontLoc := 0;
      availLoc := -1;
      nodes := [];
      avail := [];
      cursorLocs := map[];
      new;
      prev[0] := -1;
      next[0] := -1;
      assert Positions(nodes) == [Rear];
      forall i | 0 <= i < refCntr.Length ensures refCntr[i] == |CursorsAt(cursorLocs, i)| {
        assert CursorsAt(cursorLocs, i) == {};
      }
    }

    function IsEmpty(): (r: bool)
      reads Frame()
      requires Valid()
      ensures r <==> Items() == []
    {
      numItems == 0
    }

    function LengthOf(): (r: int)
      reads Frame()
      requires Valid()
      ensures r == |Items()|
    {
      numItems
    }

    /** A new cursor at the rear, counted on the sentinel slot. */
    method GetCursor() returns (c: Cursor<T>)
      requires Valid()
      modifies this`cursorLocs, refCntr
      ensures fresh(c) && c.myList == this && c.loc == Rear
      ensures cursorLocs == old(cursorLocs)[c := Rear]
      ensures refCntr[..] == old(refCntr[..])[Rear := old(refCntr[Rear]) + 1]
      ensures Valid() && c.Live()
    {
      c := new Cursor(this);
    }

    /** Reallocates all four arrays with length newLen, copying slots 0..numItems and
        leaving the rest null or zero. This keeps the list intact only when no slot
        above numItems is in use, which is what this precondition demands. */
    method ChangeAryLen(newLen: int)
      requires Valid()
      requires numItems < newLen && MinAryLen <= newLen
      requires forall s :: s in nodes || s in avail ==> s <= numItems
      modifies this
      ensures fresh(contents) && fresh(prev) && fresh(next) && fresh(refCntr)
      ensures contents.Length == newLen
      ensures LinksOf() == ResizedLinks(old(LinksOf()), newLen)
      ensures contents[..] == CopyUpTo(old(contents[..]), numItems, newLen, None)
      ensures refCntr[..] == CopyUpTo(old(refCntr[..]), numItems, newLen, 0)
      ensures nodes == old(nodes) && avail == old(avail) && cursorLocs == old(cursorLocs)
      ensures Valid() && Items() == old(Items())
    {
      ghost var l := LinksOf();
      ghost var oldContents := contents[..];
      ResizeKeepsLinked(l, nodes, avail, newLen);
      CursorsWithin();
      CopiedItems(oldContents, nodes, numItems, newLen);
      CountsAfterResize(refCntr[..], cursorLocs, numItems, newLen);
      var newContents, newPrev, newNext, newRefCntr :=
        CopiedArrays(contents, prev, next, refCntr, numItems, newLen);
      contents := newContents;
      prev := newPrev;
      next := newNext;
      refCntr := newRefCntr;
    }

    /** The growth step of insert: when the arrays are full, reallocates them with
        length 2 * numItems; otherwise changes nothing. Either way one more slot is free. */
    method MakeRoom()
      requires Valid()
      modifies this
      ensures Valid() && Items() == old(Items())
      ensures nodes == old(nodes) && avail == old(avail) && cursorLocs == old(cursorLocs)
      ensures frontLoc == old(frontLoc) && numItems == old(numItems)
      ensures numItems + 1 < contents.Length
      ensures contents.Length ==
                if old(numItems + 1 == contents.Length) then 2 * old(numItems) else old(contents.Length)
      ensures old(numItems + 1 == contents.Length) ==>
                fresh(contents) && fresh(prev) && fresh(next) && fresh(refCntr)
      ensures old(numItems + 1 < contents.Length) ==>
                contents == old(contents) && prev == old(prev) && next == old(next) && refCntr == old(refCntr)
      ensures fresh(Frame() - old(Frame()))
    {
      if numItems + 1 == contents.Length {
        FullMeansPacked();
        ChangeAryLen(2 * numItems);
      }
    }

    /** The splice of insert: takes the head of the avail chain (or else slot
        numItems + 1) for a new node holding item and links it in just before slot
        loc, the position at index k, making it the front when loc was the front. */
    method LinkIn(loc: int, item: T, ghost k: nat) returns (newLoc: int)
      requires Shape() && Linked(LinksOf(), nodes, avail) && Filled(contents[..], nodes)
      requires k <= |nodes| && loc == Positions(nodes)[k] && numItems + 1 < contents.Length
      modifies this`frontLoc, this`numItems, this`availLoc, this`nodes, this`avail, contents, prev, next
      ensures Shape() && Linked(LinksOf(), nodes, avail) && Filled(contents[..], nodes)
      ensures newLoc == old(if avail == [] then numItems + 1 else avail[0])
      ensures nodes == old(nodes[..k]) + [newLoc] + old(nodes[k..])
      ensures avail == old(if avail == [] then [] else avail[1..])
      ensures Items() == old(Items()[..k]) + [item] + old(Items()[k..])
      ensures IndexOf(Positions(nodes), loc) == k + 1
      ensures LinksOf() == InsertLinks(old(LinksOf()), loc)
      ensures contents[..] == old(contents[..])[newLoc := Some(item)]
    {
      InsertStep(LinksOf(), contents[..], nodes, avail, k, item);
      newLoc := SpliceIn(loc, item);
      nodes := nodes[..k] + [newLoc] + nodes[k..];
      avail := if avail == [] then [] else avail[1..];
    }

    /** Insert on a valid list, before the node at slot loc, which is position k: grow
        the arrays when full, then link the new node in. */
    method InsertBefore(loc: int, item: T, ghost k: nat) returns (newLoc: int)
      requires Valid() && k <= |nodes| && loc == Positions(nodes)[k]
      modifies this, contents, prev, next
      ensures Valid()
      ensures Items() == old(Items()[..k]) + [item] + old(Items()[k..])
      ensures loc in Positions(nodes) && IndexOf(Positions(nodes), loc) == k + 1
      ensures numItems == old(numItems) + 1
      ensures cursorLocs == old(cursorLocs)
      ensures fresh(Frame() - old(Frame()))
      ensures contents.Length ==
                if old(numItems + 1 == contents.Length) then 2 * old(numItems) else old(contents.Length)
      ensures newLoc == old(if avail == [] then numItems + 1 else avail[0])
      ensures nodes == old(nodes[..k]) + [newLoc] + old(nodes[k..])
      ensures avail == old(if avail == [] then [] else avail[1..])
      ensures contents[newLoc] == Some(item)
    {
      MakeRoom();
      ghost var frame := Frame();
      newLoc := InsertAt(loc, item, k);
      assert Frame() == frame;
    }

    /** LinkIn on a valid list: every cursor stays counted and on a position. */
    method InsertAt(loc: int, item: T, ghost k: nat) returns (newLoc: int)
      requires Valid() && k <= |nodes| && loc == Positions(nodes)[k] && numItems + 1 < contents.Length
      modifies this`frontLoc, this`numItems, this`availLoc, this`nodes, this`avail, contents, prev, next
      ensures Valid()
      ensures newLoc == old(if avail == [] then numItems + 1 else avail[0])
      ensures nodes == old(nodes[..k]) + [newLoc] + old(nodes[k..])
      ensures avail == old(if avail == [] then [] else avail[1..])
      ensures Items() == old(Items()[..k]) + [item] + old(Items()[k..])
      ensures IndexOf(Positions(nodes), loc) == k + 1
      ensures numItems == old(numItems) + 1
      ensures contents[newLoc] == Some(item)
    {
      PlacedAfterInsert(cursorLocs, nodes, k, NewSlot(LinksOf()));
      NewSlotIsFree(LinksOf(), nodes, avail);
      newLoc := LinkIn(loc, item, k);
    }

    /** The array writes of LinkIn, step by step as insert does them. */
    method SpliceIn(loc: int, item: T) returns (newLoc: int)
      requires Shape()
      requires 0 <= loc < next.Length && 0 <= NewSlot(LinksOf()) < next.Length
      requires loc != frontLoc ==> 0 <= prev[loc] < next.Length
      modifies this`frontLoc, this`numItems, this`availLoc, contents, prev, next
      ensures newLoc == NewSlot(old(LinksOf()))
      ensures LinksOf() == InsertLinks(old(LinksOf()), loc)
      ensures contents[..] == old(contents[..])[newLoc := Some(item)]
    {
      if availLoc == -1 {
        newLoc := numItems + 1;
      } else {
        newLoc := availLoc;
        availLoc := next[availLoc];
      }
      numItems := numItems + 1;
      contents[newLoc] := Some(item);
      next[newLoc] := loc;
      if loc == frontLoc {
        frontLoc := newLoc;
        prev[newLoc] := -1;
      } else {
        var prevLoc := prev[loc];
        next[prevLoc] := newLoc;
        prev[newLoc] := prevLoc;
      }
      prev[loc] := newLoc;
    }

    /** The unlinking of remove for the node at index k, slot loc: points its
        successor back at its predecessor, makes the successor the front or points the
        predecessor at it, pushes loc on the avail chain and counts one item less. */
    method Unlink(loc: int, ghost k: nat)
      requires Shape() && Linked(LinksOf(), nodes, avail) && Filled(contents[..], nodes)
      requires k < |nodes| && loc == nodes[k]
      modifies this`frontLoc, this`numItems, this`availLoc, this`nodes, this`avail, prev, next
      ensures Linked(LinksOf(), nodes, avail) && Filled(contents[..], nodes)
      ensures nodes == old(nodes[..k] + nodes[k + 1..]) && avail == [loc] + old(avail)
      ensures Items() == old(Items()[..k] + Items()[k + 1..])
      ensures Positions(nodes)[k] == old(next[loc]) && old(next[loc]) != loc
      ensures IndexOf(Positions(nodes), old(next[loc])) == k
    {
      RemoveStep(LinksOf(), contents[..], nodes, avail, k);
      SpliceOut(loc);
      nodes := nodes[..k] + nodes[k + 1..];
      avail := [loc] + avail;
    }

    /** Unlink for a node on which cursor c alone rests: every other cursor stays
        placed, so the list is intact except for c. */
    method UnlinkAlone(loc: int, ghost k: nat, ghost c: Cursor<T>)
      requires Valid() && k < |nodes| && loc == nodes[k]
      requires c in cursorLocs && cursorLocs[c] == loc && refCntr[loc] <= 1
      modifies this`frontLoc, this`numItems, this`availLoc, this`nodes, this`avail, prev, next
      ensures ValidExcept(c) && refCntr[loc] == 1
      ensures nodes == old(nodes[..k] + nodes[k + 1..]) && avail == [loc] + old(avail)
      ensures Items() == old(Items()[..k] + Items()[k + 1..])
      ensures Positions(nodes)[k] == old(next[loc]) && old(next[loc]) != loc
      ensures IndexOf(Positions(nodes), old(next[loc])) == k
    {
      PlacedAfterRemoveAlone(refCntr[..], cursorLocs, nodes, c, k);
      Unlink(loc, k);
    }

    /** The array writes of Unlink, step by step as remove does them. */
    method SpliceOut(loc: int)
      requires Shape()
      requires 0 <= loc < next.Length && 0 <= next[loc] < next.Length
      requires loc != frontLoc ==> 0 <= prev[loc] < next.Length
      modifies this`frontLoc, this`numItems, this`availLoc, prev, next
      ensures LinksOf() == RemoveLinks(old(LinksOf()), loc)
    {
      var nextLoc := next[loc];
      prev[nextLoc] := prev[loc];
      if loc == frontLoc {
        frontLoc := nextLoc;
      } else {
        next[prev[loc]] := nextLoc;
      }
      next[loc] := availLoc;
      availLoc := loc;
      numItems := numItems - 1;
    }

    /** When the arrays are full the avail chain is empty and the occupied slots are
        exactly 1..numItems, so copying slots 0..numItems loses nothing. */
    lemma FullMeansPacked()
      requires Valid() && numItems + 1 == contents.Length
      ensures avail == []
      ensures forall s :: s in nodes || s in avail ==> s <= numItems
    {
    }

    /** When no slot above numItems is in use, no cursor rests above numItems. */
    lemma CursorsWithin()
      requires Valid()
      requires forall s :: s in nodes || s in avail ==> s <= numItems
      ensures forall k :: 0 <= k < |nodes| ==> nodes[k] <= numItems
      ensures forall c :: c in cursorLocs ==> cursorLocs[c] <= numItems
    {
      forall k | 0 <= k < |nodes| ensures nodes[k] <= numItems {
        assert nodes[k] in nodes;
      }
      forall c | c in cursorLocs ensures cursorLocs[c] <= numItems {
        if cursorLocs[c] in nodes {
          assert cursorLocs[c] <= numItems;
        }
      }
    }
  }

  class Cursor<T> {
    const myList: PosList<T>
    var loc: int

    /** A cursor of `list` at its rear, registered and counted there. */
    constructor (list: PosList<T>)
      requires list.Valid()
      modifies list`cursorLocs, list.refCntr
      ensures myList == list && loc == Rear
      ensures list.cursorLocs == old(list.cursorLocs)[this := Rear]
      ensures list.refCntr[..] == old(list.refCntr[..])[Rear := old(list.refCntr[Rear]) + 1]
      ensures Valid()
    {
      myList := list;
      loc := Rear;
      new;
      assert this !in list.cursorLocs;
      CountsAfterNew(list.refCntr[..], list.cursorLocs, this, Rear);
      list.refCntr[Rear] := list.refCntr[Rear] + 1;
      list.cursorLocs := list.cursorLocs[this := Rear];
      assert Positions(list.nodes)[|list.nodes|] == Rear;
    }

    /** The list is intact and has this cursor registered where it rests. */
    ghost predicate Valid()
      reads this, myList, myList.Frame()
    {
      myList.Valid() && this in myList.cursorLocs && myList.cursorLocs[this] == loc
    }

    /** Valid and not disposed: every operation but dispose asks for this. */
    ghost predicate Live()
      reads this, myList, myList.Frame()
    {
      Valid() && loc != NoLoc
    }

    /** The cursor's position: 0 at the front, |Items()| at the rear. */
    ghost function Pos(): nat
      reads this, myList
      requires loc in Positions(myList.nodes)
    {
      IndexOf(Positions(myList.nodes), loc)
    }

    /** The count on a live cursor's slot includes the cursor itself, and it is 1
        exactly when no other cursor rests there: the test remove makes before it
        unlinks a node. */
    lemma Counted()
      requires Live()
      ensures 0 <= loc < myList.refCntr.Length && 1 <= myList.refCntr[loc]
      ensures myList.refCntr[loc] == 1 <==>
                forall e :: e in myList.cursorLocs && e != this ==> myList.cursorLocs[e] != loc
    {
      var here := CursorsAt(myList.cursorLocs, loc);
      assert this in here;
      if myList.refCntr[loc] == 1 {
        AloneAt(myList.refCntr[..], myList.cursorLocs, this);
      }
      if forall e :: e in myList.cursorLocs && e != this ==> myList.cursorLocs[e] != loc {
        OnlyAt(myList.refCntr[..], myList.cursorLocs, this);
      }
    }

    /** At the front: position 0 for a live cursor, false once disposed. */
    function AtFront(): (r: bool)
      reads this, myList, myList.Frame()
      requires Valid()
      ensures loc != NoLoc ==> (r <==> Pos() == 0)
      ensures loc == NoLoc ==> !r
    {
      loc == myList.frontLoc
    }

    /** At the rear: position |Items()| for a live cursor, false once disposed. */
    function AtRear(): (r: bool)
      reads this, myList, myList.Frame()
      requires Valid()
      ensures loc != NoLoc ==> (r <==> Pos() == |myList.Items()|)
      ensures loc == NoLoc ==> !r
    {
      assert Positions(myList.nodes)[|myList.nodes|] == Rear;
      loc == Rear
    }

    function GetItem(): (r: Result<T>)
      reads this, myList, myList.Frame()
      requires Live()
      ensures r.Err? <==> Pos() == |myList.Items()|
      ensures r.Err? ==> r.error == AtRearError
      ensures r.Ok? ==> r.value == myList.Items()[Pos()]
    {
      if AtRear() then Err(AtRearError)
      else
        assert Positions(myList.nodes)[Pos()] == myList.nodes[Pos()];
        Ok(myList.contents[loc].value)
    }

    /** Two cursors are equal when they are on the same list at the same position, or
        both disposed on the same list. */
    function Equals(c: Cursor<T>): (r: bool)
      reads this, myList, myList.Frame(), c, c.myList, c.myList.Frame()
      requires Valid() && c.Valid()
      ensures loc != NoLoc && c.loc != NoLoc ==> (r <==> myList == c.myList && Pos() == c.Pos())
      ensures loc == NoLoc || c.loc == NoLoc ==> (r <==> myList == c.myList && loc == NoLoc && c.loc == NoLoc)
    {
      myList == c.myList && loc == c.loc
    }

    /** Moves the cursor to slot newLoc, keeping the reference counts accurate. */
    method ChangeLocTo(newLoc: int)
      requires myList.ValidExcept(this) && this in myList.cursorLocs && myList.cursorLocs[this] == loc
      requires 0 <= loc < myList.refCntr.Length && newLoc in Positions(myList.nodes)
      modifies this`loc, myList`cursorLocs, myList.refCntr
      ensures loc == newLoc && Live()
      ensures myList.cursorLocs == old(myList.cursorLocs)[this := newLoc]
      ensures myList.refCntr[..] == Moved(old(myList.refCntr[..]), old(loc), newLoc)
    {
      CountsAfterMove(myList.refCntr[..], myList.cursorLocs, this, newLoc);
      PlacedAfterMove(myList.cursorLocs, myList.nodes, this, newLoc);
      myList.refCntr[loc] := myList.refCntr[loc] - 1;
      loc := newLoc;
      myList.refCntr[loc] := myList.refCntr[loc] + 1;
      myList.cursorLocs := myList.cursorLocs[this := newLoc];
    }

    /** Ends the cursor: uncounts it and parks it on NoLoc; a second call changes nothing. */
    method Dispose()
      requires Valid()
      modifies this`loc, myList`cursorLocs, myList.refCntr
      ensures Valid() && loc == NoLoc
      ensures myList.cursorLocs == old(myList.cursorLocs)[this := NoLoc]
      ensures myList.refCntr[..] ==
                if old(loc) == NoLoc then old(myList.refCntr[..])
                else old(myList.refCntr[..])[old(loc) := old(myList.refCntr[loc]) - 1]
    {
      if loc != NoLoc {
        assert loc in Positions(myList.nodes);
        CountsAfterDispose(myList.refCntr[..], myList.cursorLocs, this);
        PlacedAfterMove(myList.cursorLocs, myList.nodes, this, NoLoc);
        myList.refCntr[loc] := myList.refCntr[loc] - 1;
        loc := NoLoc;
        myList.cursorLocs := myList.cursorLocs[this := NoLoc];
      } else {
        assert myList.cursorLocs[this := NoLoc] == myList.cursorLocs;
      }
    }

    method ToFront()
      requires Live()
      modifies this`loc, myList`cursorLocs, myList.refCntr
      ensures Live() && AtFront() && Pos() == 0
      ensures myList.cursorLocs == old(myList.cursorLocs)[this := loc]
      ensures myList.refCntr[..] == Moved(old(myList.refCntr[..]), old(loc), myList.frontLoc)
    {
      assert Positions(myList.nodes)[0] == myList.frontLoc;
      ChangeLocTo(myList.frontLoc);
    }

    method ToRear()
      requires Live()
      modifies this`loc, myList`cursorLocs, myList.refCntr
      ensures Live() && AtRear() && Pos() == |myList.Items()|
      ensures myList.cursorLocs == old(myList.cursorLocs)[this := loc]
      ensures myList.refCntr[..] == Moved(old(myList.refCntr[..]), old(loc), Rear)
    {
      assert Positions(myList.nodes)[|myList.nodes|] == Rear;
      ChangeLocTo(Rear);
    }

    /** One position towards the rear; refused at the rear. */
    method ToNext() returns (o: Outcome)
      requires Live()
      modifies this`loc, myList`cursorLocs, myList.refCntr
      ensures Live()
      ensures myList.cursorLocs == old(myList.cursorLocs)[this := loc]
      ensures old(Pos()) == old(|myList.Items()|) ==>
                o == Failed(AtRearError) && loc == old(loc) && myList.refCntr[..] == old(myList.refCntr[..])
      ensures old(Pos()) < old(|myList.Items()|) ==>
                && o == Done
                && Pos() == old(Pos()) + 1
                && loc == old(myList.next[loc])
                && myList.refCntr[..] == Moved(old(myList.refCntr[..]), old(loc), loc)
    {
      if AtRear() {
        return Failed(AtRearError);
      }
      ghost var k := Pos();
      NextThenPrev(myList.LinksOf(), myList.nodes, myList.avail, k);
      ChangeLocTo(myList.next[loc]);
      IndexOfDistinct(Positions(myList.nodes), k + 1);
      o := Done;
    }

    /** One position towards the front; refused at the front. */
    method ToPrev() returns (o: Outcome)
      requires Live()
      modifies this`loc, myList`cursorLocs, myList.refCntr
      ensures Live()
      ensures myList.cursorLocs == old(myList.cursorLocs)[this := loc]
      ensures old(Pos()) == 0 ==>
                o == Failed(AtFrontError) && loc == old(loc) && myList.refCntr[..] == old(myList.refCntr[..])
      ensures old(Pos()) > 0 ==>
                && o == Done
                && Pos() == old(Pos()) - 1
                && loc == old(myList.prev[loc])
                && myList.refCntr[..] == Moved(old(myList.refCntr[..]), old(loc), loc)
    {
      if AtFront() {
        return Failed(AtFrontError);
      }
      ghost var k := Pos();
      PrevThenNext(myList.LinksOf(), myList.nodes, myList.avail, k);
      ChangeLocTo(myList.prev[loc]);
      IndexOfDistinct(Positions(myList.nodes), k - 1);
      o := Done;
    }

    /** Moves to where c rests; refused when c belongs to another list. */
    method SetTo(c: Cursor<T>) returns (o: Outcome)
      requires Live() && c.Live()
      modifies this`loc, myList`cursorLocs, myList.refCntr
      ensures Live() && c.Live()
      ensures myList.cursorLocs == old(myList.cursorLocs)[this := loc]
      ensures myList != c.myList ==>
                o == Failed(OtherListError) && loc == old(loc) && myList.refCntr[..] == old(myList.refCntr[..])
      ensures myList == c.myList ==>
                && o == Done
                && loc == c.loc && Equals(c)
                && myList.refCntr[..] == Moved(old(myList.refCntr[..]), old(loc), loc)
    {
      if myList != c.myList {
        return Failed(OtherListError);
      }
      ChangeLocTo(c.loc);
      o := Done;
    }

    /** A new cursor of the same list at the same slot, counted there. */
    method Clone() returns (d: Cursor<T>)
      requires Live()
      modifies myList`cursorLocs, myList.refCntr
      ensures fresh(d) && d.myList == myList && d.loc == loc
      ensures Live() && d.Live() && d.Equals(this)
      ensures myList.cursorLocs == old(myList.cursorLocs)[d := loc]
      ensures myList.refCntr[..] == old(myList.refCntr[..])[loc := old(myList.refCntr[loc]) + 1]
    {
      CountThenMove(myList.refCntr[..], Rear, loc);
      ghost var locs: map<Cursor<T>, int> := myList.cursorLocs;
      d := myList.GetCursor();
      var o := d.SetTo(this);
      UpdateTwice(locs, d, Rear, loc);
      assert o == Done;
    }

    /** Inserts item as a new node just before the cursor's position; the cursor stays
        on its node. When the arrays are full they are first reallocated to length
        2 * numItems. The new node takes the head of the avail chain, or else slot
        numItems + 1. */
    method Insert(item: T)
      requires Live()
      modifies myList, myList.contents, myList.prev, myList.next
      ensures Live()
      ensures myList.Items() == old(myList.Items()[..Pos()] + [item] + myList.Items()[Pos()..])
      ensures Pos() == old(Pos()) + 1
      ensures myList.numItems == old(myList.numItems) + 1
      ensures myList.cursorLocs == old(myList.cursorLocs)
      ensures fresh(myList.Frame() - old(myList.Frame()))
      ensures myList.contents.Length ==
                if old(myList.numItems + 1 == myList.contents.Length) then 2 * old(myList.numItems)
                else old(myList.contents.Length)
      ensures var newLoc := old(if myList.avail == [] then myList.numItems + 1 else myList.avail[0]);
              && myList.nodes == old(myList.nodes[..Pos()]) + [newLoc] + old(myList.nodes[Pos()..])
              && myList.avail == old(if myList.avail == [] then [] else myList.avail[1..])
              && myList.contents[newLoc] == Some(item)
    {
      var newLoc := myList.InsertBefore(loc, item, Pos());
    }

    /** Removes the node the cursor is on and moves the cursor to its successor; the
        freed slot is pushed on the avail chain. Refused at the rear and when other
        cursors rest on the same node. The arrays keep their length. */
    method Remove() returns (r: Result<T>)
      requires Live()
      modifies this`loc, myList, myList.prev, myList.next, myList.refCntr
      ensures Live() && myList.contents == old(myList.contents) && myList.prev == old(myList.prev)
      ensures myList.next == old(myList.next) && myList.refCntr == old(myList.refCntr)
      ensures myList.cursorLocs == old(myList.cursorLocs)[this := loc]
      ensures old(Pos()) == old(|myList.Items()|) ==>
                && r == Err(AtRearError) && loc == old(loc)
                && unchanged(myList) && unchanged(myList.prev, myList.next, myList.refCntr)
      ensures old(Pos()) < old(|myList.Items()|) && old(myList.refCntr[loc]) > 1 ==>
                && r == Err(SharedNodeError) && loc == old(loc)
                && unchanged(myList) && unchanged(myList.prev, myList.next, myList.refCntr)
      ensures old(Pos()) < old(|myList.Items()|) && old(myList.refCntr[loc]) <= 1 ==>
                && r == Ok(old(myList.Items()[Pos()]))
                && myList.Items() == old(myList.Items()[..Pos()] + myList.Items()[Pos() + 1..])
                && Pos() == old(Pos())
                && loc == old(myList.next[loc])
                && myList.numItems == old(myList.numItems) - 1
                && myList.nodes == old(myList.nodes[..Pos()] + myList.nodes[Pos() + 1..])
                && myList.avail == [old(loc)] + old(myList.avail)
                && myList.refCntr[old(loc)] == 0
                && myList.refCntr[..] == Moved(old(myList.refCntr[..]), old(loc), loc)
    {
      if AtRear() {
        return Err(AtRearError);
      }
      if myList.refCntr[loc] > 1 {
        return Err(SharedNodeError);
      }
      var item := RemoveUnshared();
      r := Ok(item);
    }

    /** The success path of remove: the cursor is on a node and alone there. */
    method RemoveUnshared() returns (item: T)
      requires Live() && Pos() < |myList.Items()| && myList.refCntr[loc] <= 1
      modifies this`loc, myList, myList.prev, myList.next, myList.refCntr
      ensures Live() && myList.contents == old(myList.contents) && myList.prev == old(myList.prev)
      ensures myList.next == old(myList.next) && myList.refCntr == old(myList.refCntr)
      ensures myList.cursorLocs == old(myList.cursorLocs)[this := loc]
      ensures item == old(myList.Items()[Pos()])
      ensures myList.Items() == old(myList.Items()[..Pos()] + myList.Items()[Pos() + 1..])
      ensures Pos() == old(Pos())
      ensures loc == old(myList.next[loc])
      ensures myList.numItems == old(myList.numItems) - 1
      ensures myList.nodes == old(myList.nodes[..Pos()] + myList.nodes[Pos() + 1..])
      ensures myList.avail == [old(loc)] + old(myList.avail)
      ensures myList.refCntr[old(loc)] == 0
      ensures myList.refCntr[..] == Moved(old(myList.refCntr[..]), old(loc), loc)
    {
      ghost var k := Pos();
      assert Positions(myList.nodes)[k] == myList.nodes[k];
      item := myList.contents[loc].value;
      var nextLoc := myList.next[loc];
      myList.UnlinkAlone(loc, k, this);
      ChangeLocTo(nextLoc);
    }

    /** Overwrites the item at the cursor and returns the one it replaced; refused at
        the rear. */
    method Replace(item: T) returns (r: Result<T>)
      requires Live()
      modifies myList.contents
      ensures Live()
      ensures old(Pos()) == old(|myList.Items()|) ==> r == Err(AtRearError) && unchanged(myList.contents)
      ensures old(Pos()) < old(|myList.Items()|) ==>
                && r == Ok(old(myList.Items()[Pos()]))
                && myList.Items() == old(myList.Items())[old(Pos()) := item]
                && myList.contents[..] == old(myList.contents[..])[loc := Some(item)]
    {
      if AtRear() {
        return Err(AtRearError);
      }
      ghost var k := Pos();
      assert Positions(myList.nodes)[k] == myList.nodes[k];
      NodesDistinct(myList.LinksOf(), myList.nodes);
      ReplacedItems(myList.contents[..], myList.nodes, k, item);
      r := Ok(myList.contents[loc].value);
      myList.contents[loc] := Some(item);
    }

    /** Exchanges the items at this cursor and at c, which may belong to another list;
        refused, before any write, when either cursor is at the rear. */
    method SwapItems(c: Cursor<T>) returns (o: Outcome)
      requires Live() && c.Live()
      requires myList != c.myList ==> myList.contents != c.myList.contents
      modifies myList.contents, c.myList.contents
      ensures Live() && c.Live()
      ensures old(Pos()) == old(|myList.Items()|) || old(c.Pos()) == old(|c.myList.Items()|) ==>
                o == Failed(AtRearError) && unchanged(myList.contents, c.myList.contents)
      ensures old(Pos()) < old(|myList.Items()|) && old(c.Pos()) < old(|c.myList.Items()|) ==>
                && o == Done
                && (myList == c.myList ==>
                      myList.Items() == old(myList.Items()[Pos() := myList.Items()[c.Pos()]][c.Pos() := myList.Items()[Pos()]]))
                && (myList != c.myList ==>
                      && myList.Items() == old(myList.Items()[Pos() := c.myList.Items()[c.Pos()]])
                      && c.myList.Items() == old(c.myList.Items()[c.Pos() := myList.Items()[Pos()]]))
    {
      var mine := GetItem();
      if mine.Err? {
        return Failed(mine.error);
      }
      var theirs := c.GetItem();
      if theirs.Err? {
        return Failed(theirs.error);
      }
      if myList == c.myList {
        SwapWithin(c, mine.value, theirs.value);
      } else {
        SwapAcross(c, mine.value, theirs.value);
      }
      o := Done;
    }

    /** The writes of swapItems when both cursors are on this list. */
    method SwapWithin(c: Cursor<T>, mine: T, theirs: T)
      requires Live() && c.Live() && myList == c.myList
      requires Pos() < |myList.Items()| && c.Pos() < |myList.Items()|
      requires mine == myList.Items()[Pos()] && theirs == myList.Items()[c.Pos()]
      modifies myList.contents
      ensures Live() && c.Live()
      ensures myList.Items() == old(myList.Items()[Pos() := theirs][c.Pos() := mine])
    {
      var _ := Replace(theirs);
      var _ := c.Replace(mine);
    }

    /** The writes of swapItems when c is on another list. */
    method SwapAcross(c: Cursor<T>, mine: T, theirs: T)
      requires Live() && c.Live() && myList != c.myList && myList.contents != c.myList.contents
      requires Pos() < |myList.Items()| && c.Pos() < |c.myList.Items()|
      modifies myList.contents, c.myList.contents
      ensures Live() && c.Live()
      ensures myList.Items() == old(myList.Items()[Pos() := theirs])
      ensures c.myList.Items() == old(c.myList.Items()[c.Pos() := mine])
    {
      var _ := Replace(theirs);
      var _ := c.Replace(mine);
    }
  }
}
