/** The two in-place shifts of moveSnake, as functions on the contents of the
    tail array, and what they do to the snake's body, the head followed by the
    first tailLength tail slots. */
module Segments {
  import opened Grid

  /** The occupied cells: the head, then tail slots 0 .. n-1. */
  function BodyOf(head: Coords, t: seq<Coords>, n: nat): (b: seq<Coords>)
    requires n <= |t|
    ensures |b| == n + 1 && b[0] == head
  {
    [head] + t[..n]
  }

  /** The tail array after a plain move (extend == false): slots 1 .. n-1 move
      down one slot, the old head enters slot n-1, slots n and above keep their
      contents. Slot 0 is the one that is lost. */
  function Dropped(t: seq<Coords>, n: nat, head: Coords): (r: seq<Coords>)
    requires 1 <= n <= |t|
    ensures |r| == |t|
  {
    t[1..n] + [head] + t[n..]
  }

  lemma DroppedAt(t: seq<Coords>, n: nat, head: Coords)
    requires 1 <= n <= |t|
    ensures forall i :: 0 <= i < n - 1 ==> Dropped(t, n, head)[i] == t[i + 1]
    ensures Dropped(t, n, head)[n - 1] == head
    ensures forall i :: n <= i < |t| ==> Dropped(t, n, head)[i] == t[i]
  {
  }

  /** The tail array after an extending move (extend == true): slots 0 .. n-1
      move up one slot, the old head enters slot 0, slots above n keep their
      contents. */
  function Grown(t: seq<Coords>, n: nat, head: Coords): (r: seq<Coords>)
    requires n < |t|
    ensures |r| == |t|
  {
    [head] + t[..n] + t[n + 1..]
  }

  lemma GrownAt(t: seq<Coords>, n: nat, head: Coords)
    requires n < |t|
    ensures forall i :: 0 <= i < n ==> Grown(t, n, head)[i + 1] == t[i]
    ensures Grown(t, n, head)[0] == head
    ensures forall i :: n < i < |t| ==> Grown(t, n, head)[i] == t[i]
  {
  }

  /** A plain move onto c vacates exactly the cell in tail slot 0 and occupies
      c: every other cell of the body is kept. */
  lemma PlainMoveVacatesSlotZero(t: seq<Coords>, n: nat, head: Coords, c: Coords)
    requires 1 <= n <= |t|
    ensures BodyOf(c, Dropped(t, n, head), n) == [c] + t[1..n] + [head]
    ensures multiset(BodyOf(c, Dropped(t, n, head), n)) + multiset{t[0]}
         == multiset(BodyOf(head, t, n)) + multiset{c}
  {
    var r := Dropped(t, n, head);
    assert r[..n] == t[1..n] + [head];
    assert t[..n] == [t[0]] + t[1..n];
  }

  /** An extending move onto c keeps every cell of the body and adds c. */
  lemma ExtendingMoveKeepsBody(t: seq<Coords>, n: nat, head: Coords, c: Coords)
    requires n < |t|
    ensures BodyOf(c, Grown(t, n, head), n + 1) == [c, head] + t[..n]
    ensures multiset(BodyOf(c, Grown(t, n, head), n + 1))
         == multiset(BodyOf(head, t, n)) + multiset{c}
  {
    var r := Grown(t, n, head);
    assert r[..n + 1] == [head] + t[..n];
  }

  /** A plain move keeps the body free of repeated cells when it enters a free
      cell or the cell in tail slot 0, the one it vacates. */
  lemma PlainMoveKeepsDistinct(t: seq<Coords>, n: nat, head: Coords, c: Coords)
    requires 1 <= n <= |t|
    requires Distinct(BodyOf(head, t, n))
    requires c != head
    requires c == t[0] || c !in BodyOf(head, t, n)
    ensures Distinct(BodyOf(c, Dropped(t, n, head), n))
  {
    var before := BodyOf(head, t, n);
    PlainMoveVacatesSlotZero(t, n, head, c);
    var b := BodyOf(c, Dropped(t, n, head), n);
    // b[k] for k in 1 .. n-1 is before[k + 1]; b[n] is before[0]
    assert forall k :: 1 <= k < n ==> b[k] == before[k + 1];
    assert b[n] == before[0];
    assert c !in before[2..] by {
      if c == t[0] {
        assert c == before[1];
        assert forall k :: 2 <= k < |before| ==> before[k] != before[1];
      }
    }
    forall i, j | 0 <= i < j < |b| ensures b[i] != b[j] {
      if i == 0 {
        if j < n {
          assert b[j] == before[j + 1] && before[j + 1] in before[2..];
        }
      } else if j < n {
        assert b[i] == before[i + 1] && b[j] == before[j + 1];
      } else {
        assert b[i] == before[i + 1] && b[j] == before[0];
      }
    }
  }

  /** An extending move onto a free cell keeps the body free of repeated cells. */
  lemma ExtendingMoveKeepsDistinct(t: seq<Coords>, n: nat, head: Coords, c: Coords)
    requires n < |t|
    requires Distinct(BodyOf(head, t, n))
    requires c !in BodyOf(head, t, n)
    ensures Distinct(BodyOf(c, Grown(t, n, head), n + 1))
  {
    ExtendingMoveKeepsBody(t, n, head, c);
    var before := BodyOf(head, t, n);
    var b := BodyOf(c, Grown(t, n, head), n + 1);
    assert b == [c] + before;
    forall i, j | 0 <= i < j < |b| ensures b[i] != b[j] {
      if i == 0 {
        assert b[j] == before[j - 1];
      } else {
        assert b[i] == before[i - 1] && b[j] == before[j - 1];
      }
    }
  }

  /** The two shifts use opposite ends of the array for the newest segment: an
      extension stores the old head, the segment next to the new head, in slot
      0, and the next plain move drops slot 0. The body after the pair has lost
      the cell h where the head was when the food was reached, while the old
      trailing segments all stay. */
  lemma ExtendThenMoveDropsNeck(t: seq<Coords>, n: nat, h: Coords, c1: Coords, c2: Coords)
    requires n < |t|
    ensures BodyOf(c2, Dropped(Grown(t, n, h), n + 1, c1), n + 1) == [c2] + t[..n] + [c1]
  {
    var g := Grown(t, n, h);
    assert g[1..n + 1] == t[..n];
    PlainMoveVacatesSlotZero(g, n + 1, c1, c2);
  }

  /** The extension the source's comments describe: the old head joins the
      neck end of the tail, slot n, next to the slot that a plain move fills,
      and slot 0 keeps the oldest segment. */
  function GrownNeck(t: seq<Coords>, n: nat, head: Coords): (r: seq<Coords>)
    requires n < |t|
    ensures |r| == |t|
  {
    t[..n] + [head] + t[n + 1..]
  }

  /** The corrected extension keeps every cell of the body and adds c, like
      the one as written, but keeps the slots ordered oldest first. */
  lemma NeckExtensionKeepsBody(t: seq<Coords>, n: nat, head: Coords, c: Coords)
    requires n < |t|
    ensures BodyOf(c, GrownNeck(t, n, head), n + 1) == [c] + t[..n] + [head]
    ensures multiset(BodyOf(c, GrownNeck(t, n, head), n + 1))
         == multiset(BodyOf(head, t, n)) + multiset{c}
  {
    var r := GrownNeck(t, n, head);
    assert r[..n + 1] == t[..n] + [head];
  }

  /** With the corrected extension, an extension followed by a plain move
      drops the oldest segment t[0] and keeps the cell h the head left when it
      extended: the segments stay in order, oldest first, newest last. */
  lemma NeckExtensionThenMoveDropsEnd(t: seq<Coords>, n: nat, h: Coords, c1: Coords, c2: Coords)
    requires 1 <= n < |t|
    ensures BodyOf(c2, Dropped(GrownNeck(t, n, h), n + 1, c1), n + 1) == [c2] + t[1..n] + [h, c1]
  {
    var g := GrownNeck(t, n, h);
    assert g[1..n + 1] == t[1..n] + [h];
    PlainMoveVacatesSlotZero(g, n + 1, c1, c2);
  }

  /** The same start position as StartEatThenMove under the corrected
      extension: the tail end (2,1) is dropped and the body is the path
      (2,4), (2,2), (2,3). */
  lemma StartEatThenMoveIntended(t: seq<Coords>)
    requires |t| == MaxSnakeLength && t[0] == Coords(2, 1)
    ensures BodyOf(Coords(2, 4), Dropped(GrownNeck(t, 1, Coords(2, 2)), 2, Coords(2, 3)), 2)
         == [Coords(2, 4), Coords(2, 2), Coords(2, 3)]
  {
    NeckExtensionThenMoveDropsEnd(t, 1, Coords(2, 2), Coords(2, 3), Coords(2, 4));
  }

  /** The smallest instance: the start position (head (2,2), one tail segment
      at (2,1)) eats at (2,3) and then moves on to (2,4). The occupied cells are
      then (2,4), (2,1), (2,3): the body has a gap at (2,2), and (2,1) is not
      next to any other occupied cell. */
  lemma StartEatThenMove(t: seq<Coords>)
    requires |t| == MaxSnakeLength && t[0] == Coords(2, 1)
    ensures BodyOf(Coords(2, 4), Dropped(Grown(t, 1, Coords(2, 2)), 2, Coords(2, 3)), 2)
         == [Coords(2, 4), Coords(2, 1), Coords(2, 3)]
  {
    ExtendThenMoveDropsNeck(t, 1, Coords(2, 2), Coords(2, 3), Coords(2, 4));
  }
}
