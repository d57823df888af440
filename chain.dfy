/**
 * The cons-cell chain toolkit of lispy.h (lines 20-23 and 39-139).
 *
 * A chain `node_t *` is read as the sequence of cells it reaches through
 * `next`; a slot `node_t **` that the functions edit in place is the field
 * `cells` of a `Chain` object.  A cell's `id` stands for its address, so
 * that removal by pointer identity (`ll_rm`) can be stated.
 */
module Chains {
  import opened Options

  /** One `node_t`: its address and its `data` payload. */
  datatype Cell<T> = Cell(id: nat, data: T)

  function Ids<T>(s: seq<Cell<T>>): seq<nat>
  {
    seq(|s|, i requires 0 <= i < |s| => s[i].id)
  }

  function Payloads<T>(s: seq<Cell<T>>): seq<T>
  {
    seq(|s|, i requires 0 <= i < |s| => s[i].data)
  }

  /** No two positions hold the same value. */
  ghost predicate NoDup<X>(xs: seq<X>)
  {
    forall i, j :: 0 <= i < j < |xs| ==> xs[i] != xs[j]
  }

  /** A chain is well formed when no cell occurs twice in it (it is acyclic). */
  ghost predicate WellFormed<T>(s: seq<Cell<T>>)
  {
    NoDup(Ids(s))
  }

  /**
   * The address `malloc` hands to a new cell: one that no cell of the chain
   * uses.
   */
  function FreshId<T>(s: seq<Cell<T>>): (r: nat)
    ensures forall c :: c in s ==> c.id < r
  {
    if s == [] then 0
    else
      var rest := FreshId(s[1..]);
      assert forall c :: c in s[1..] ==> c.id < rest;
      if s[0].id < rest then rest else s[0].id + 1
  }

  /** `cons(data, s)` (lines 39-47): a fresh cell in front of `s`. */
  function Prepend<T>(s: seq<Cell<T>>, x: T): (r: seq<Cell<T>>)
    ensures |r| == |s| + 1 && r[0].data == x && r[1..] == s
    ensures r[0].id !in Ids(s)
  {
    assert forall k :: 0 <= k < |s| ==> s[k] in s;
    [Cell(FreshId(s), x)] + s
  }

  /** The chain with the first cell whose address is `id` spliced out. */
  function Unlink<T>(s: seq<Cell<T>>, id: nat): (r: seq<Cell<T>>)
    ensures id !in Ids(s) ==> r == s
    ensures id in Ids(s) ==> |r| == |s| - 1
    ensures forall c :: c in r ==> c in s
  {
    assert s != [] ==> Ids(s) == [s[0].id] + Ids(s[1..]);
    if s == [] then []
    else if s[0].id == id then s[1..]
    else [s[0]] + Unlink(s[1..], id)
  }

  /** The chain with the payload at 0-based position `i` replaced, if there is one. */
  function Overwrite<T>(s: seq<Cell<T>>, i: int, x: T): (r: seq<Cell<T>>)
    ensures |r| == |s| && Ids(r) == Ids(s)
    ensures forall j :: 0 <= j < |s| && j != i ==> r[j] == s[j]
    ensures 0 <= i < |s| ==> r[i].data == x
  {
    if 0 <= i < |s| then s[i := Cell(s[i].id, x)] else s
  }

  /** The payload at 0-based position `i`, or NULL out of range. */
  function PayloadAt<T>(s: seq<Cell<T>>, i: int): Option<T>
  {
    if 0 <= i < |s| then Some(s[i].data) else None
  }

  /** `ll_push` keeps a chain well formed and `ll_pop` undoes it. */
  lemma PrependThenPop<T>(s: seq<Cell<T>>, x: T)
    requires WellFormed(s)
    ensures WellFormed(Prepend(s, x))
    ensures Prepend(s, x)[0].id !in Ids(s)
    ensures Prepend(s, x)[0].data == x && Prepend(s, x)[1..] == s
    ensures Payloads(Prepend(s, x)) == [x] + Payloads(s)
  {
    var t := Prepend(s, x);
    forall i, j | 0 <= i < j < |t| ensures Ids(t)[i] != Ids(t)[j] {
      assert t[j] in s;
      if i > 0 {
        assert Ids(t)[i] == Ids(s)[i - 1] && Ids(t)[j] == Ids(s)[j - 1];
      }
    }
    forall k | 0 <= k < |s| ensures Ids(s)[k] != t[0].id {
      assert s[k] in s;
    }
  }

  /** Splicing out the first cell with address `id` is cutting it out at its position. */
  lemma {:induction false} UnlinkAt<T>(s: seq<Cell<T>>, id: nat, p: nat)
    requires p < |s| && s[p].id == id
    requires forall j :: 0 <= j < p ==> s[j].id != id
    ensures Unlink(s, id) == s[..p] + s[p + 1..]
  {
    if p > 0 {
      UnlinkAt(s[1..], id, p - 1);
      assert s[1..][..p - 1] == s[1..p];
      assert s[..p] == [s[0]] + s[1..p];
      assert s[1..][p..] == s[p + 1..];
    }
  }

  /** A chain that holds no cell with address `id` is left as it is. */
  lemma {:induction false} UnlinkAbsent<T>(s: seq<Cell<T>>, id: nat)
    requires id !in Ids(s)
    ensures Unlink(s, id) == s
  {
    if s != [] {
      assert Ids(s) == [s[0].id] + Ids(s[1..]);
      UnlinkAbsent(s[1..], id);
    }
  }

  /**
   * In a well-formed chain, unlinking a cell that is present removes exactly
   * that cell: one cell fewer, the address gone, every other cell kept in its
   * order, and the chain still well formed.
   */
  lemma UnlinkExactly<T>(s: seq<Cell<T>>, p: nat)
    requires WellFormed(s) && p < |s|
    ensures Unlink(s, s[p].id) == s[..p] + s[p + 1..]
    ensures |Unlink(s, s[p].id)| == |s| - 1
    ensures s[p].id !in Ids(Unlink(s, s[p].id))
    ensures WellFormed(Unlink(s, s[p].id))
  {
    var id := s[p].id;
    forall j | 0 <= j < p ensures s[j].id != id {
      assert Ids(s)[j] != Ids(s)[p];
    }
    UnlinkAt(s, id, p);
    var t := s[..p] + s[p + 1..];
    forall i, j | 0 <= i < j < |t| ensures Ids(t)[i] != Ids(t)[j] {
      var i' := if i < p then i else i + 1;
      var j' := if j < p then j else j + 1;
      assert Ids(t)[i] == Ids(s)[i'] && Ids(t)[j] == Ids(s)[j'];
    }
    forall k | 0 <= k < |t| ensures Ids(t)[k] != id {
      var k' := if k < p then k else k + 1;
      assert Ids(t)[k] == Ids(s)[k'];
      if k' < p {
        assert Ids(s)[k'] != Ids(s)[p];
      } else {
        assert Ids(s)[p] != Ids(s)[k'];
      }
    }
  }

  /**
   * Overwriting a payload (`nthw`) keeps the length and every address, and
   * changes what `nth` sees at position `i` only.
   */
  lemma OverwriteOnlyAt<T>(s: seq<Cell<T>>, i: int, x: T, j: int)
    ensures |Overwrite(s, i, x)| == |s|
    ensures Ids(Overwrite(s, i, x)) == Ids(s)
    ensures PayloadAt(Overwrite(s, i, x), j)
         == if j == i && 0 <= i < |s| then Some(x) else PayloadAt(s, j)
  {
  }

  /** A `node_t **` slot and the chain it points to. */
  class Chain<T> {
    var cells: seq<Cell<T>>

    ghost predicate Valid()
      reads this
    {
      WellFormed(cells)
    }

    /** An empty slot: `node_t *n = NULL`. */
    constructor ()
      ensures Valid() && cells == []
    {
      cells := [];
    }

    /** `ll_push` (lines 48-51): the payload becomes the new head. */
    method Push(x: T)
      requires Valid()
      modifies this
      ensures Valid()
      ensures cells == Prepend(old(cells), x)
    {
      PrependThenPop(cells, x);
      cells := [Cell(FreshId(cells), x)] + cells;
    }

    /**
     * `ll_pop` (lines 53-62): detaches the head cell and returns its payload.
     * The source dereferences an empty chain; here that case returns NULL
     * and changes nothing.
     */
    method Pop() returns (r: Option<T>)
      requires Valid()
      modifies this
      ensures Valid()
      ensures old(cells) == [] ==> r == None && cells == []
      ensures old(cells) != [] ==> r == Some(old(cells)[0].data) && cells == old(cells)[1..]
    {
      if cells == [] {
        return None;
      }
      r := Some(cells[0].data);
      var next := cells[1..];
      assert Ids(next) == Ids(cells)[1..];
      cells := next;
    }

    /**
     * `ll_rm` (lines 63-75): walks the slots of the chain; at the slot that
     * points to `del` it splices that cell out and returns 0.  Returns -1,
     * changing nothing, when `del` is not a cell of the chain.
     */
    method Remove(del: nat) returns (r: int)
      requires Valid()
      modifies this
      ensures Valid()
      ensures del in Ids(old(cells)) ==> r == 0 && cells == Unlink(old(cells), del)
      ensures del !in Ids(old(cells)) ==> r == -1 && cells == old(cells)
    {
      var p := 0;
      while p < |cells|
        invariant 0 <= p <= |cells|
        invariant cells == old(cells)
        invariant forall j :: 0 <= j < p ==> cells[j].id != del
      {
        if cells[p].id == del {
          assert Ids(cells)[p] == del;
          UnlinkAt(cells, del, p);
          UnlinkExactly(cells, p);
          cells := cells[..p] + cells[p + 1..];
          return 0;
        }
        p := p + 1;
      }
      assert forall j :: 0 <= j < |cells| ==> Ids(cells)[j] != del;
      return -1;
    }

    /** `ll_free` (lines 77-93): releases every cell; the slot ends NULL. */
    method Free()
      requires Valid()
      modifies this
      ensures Valid() && cells == []
    {
      if cells == [] {
        return;
      }
      var next := cells[1..];
      cells := next;
      while next != []
        invariant cells == next
        invariant |cells| < |old(cells)| && cells == old(cells)[|old(cells)| - |cells|..]
        decreases |cells|
      {
        next := cells[1..];
        cells := next;
      }
      cells := [];
    }

    /**
     * `nth` (lines 119-128): walks the chain counting `nelem` down; returns
     * the payload where the count hits zero, NULL when the chain ends first.
     */
    method Nth(nelem: int) returns (r: Option<T>)
      ensures 0 <= nelem < |cells| ==> r == Some(cells[nelem].data)
      ensures !(0 <= nelem < |cells|) ==> r == None
    {
      var count := nelem;
      var p := 0;
      while p < |cells|
        invariant 0 <= p <= |cells|
        invariant count == nelem - p
        invariant nelem < 0 || p <= nelem
      {
        if count == 0 {
          return Some(cells[p].data);
        }
        count := count - 1;
        p := p + 1;
      }
      return None;
    }

    /**
     * `nthw` (lines 129-139): the same walk, overwriting the payload where
     * the count hits zero; out of range it does nothing.
     */
    method NthWrite(nelem: int, x: T)
      requires Valid()
      modifies this
      ensures Valid()
      ensures cells == Overwrite(old(cells), nelem, x)
    {
      var count := nelem;
      var p := 0;
      while p < |cells|
        invariant 0 <= p <= |cells|
        invariant cells == old(cells)
        invariant count == nelem - p
        invariant nelem < 0 || p <= nelem
      {
        if count == 0 {
          OverwriteOnlyAt(cells, p, x, 0);
          cells := cells[p := Cell(cells[p].id, x)];
          return;
        }
        count := count - 1;
        p := p + 1;
      }
    }
  }
}
