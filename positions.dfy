/**
 * What the positional operations of CTL's linked lists do to the sequence
 * of elements, head first. Both lists walk from the head the same way, so
 * they share these definitions:
 *  - insert_at_position(x, 0) prepends; for pos >= 1 the walk stops on the
 *    node at pos - 1 and links x after it, so x lands at index pos when
 *    pos <= length and nothing happens otherwise; a negative pos walks no
 *    steps and inserts after the head;
 *  - read_at_position(pos) reads index pos, T() past the end; a negative
 *    pos reads the head;
 *  - delete_at_position(0) removes the head; for pos >= 1 it removes index
 *    pos when that exists; a negative pos (singly linked list only) removes
 *    the node after the head.
 */
module Positions {

  /** The index an insertion or deletion at `pos` acts on when pos != 0. */
  function Effective(pos: int): (p: int)
    ensures p >= 1 || p == pos
    ensures pos >= 1 ==> p == pos
  {
    if pos < 0 then 1 else pos
  }

  ghost function InsertedAt<T>(s: seq<T>, pos: int, x: T): seq<T>
  {
    if pos == 0 then [x] + s
    else if Effective(pos) <= |s| then s[..Effective(pos)] + [x] + s[Effective(pos)..]
    else s
  }

  ghost function DeletedAt<T>(s: seq<T>, pos: int): seq<T>
  {
    if pos == 0 then (if s == [] then s else s[1..])
    else if Effective(pos) < |s| then s[..Effective(pos)] + s[Effective(pos) + 1..]
    else s
  }

  ghost function ReadAt<T>(s: seq<T>, pos: int, default: T): T
  {
    var p := if pos < 0 then 0 else pos;
    if p < |s| then s[p] else default
  }

  /** An insertion inside the list grows it by one and puts x at pos; beyond the end it changes nothing. */
  lemma InsertedAtShape<T>(s: seq<T>, pos: int, x: T)
    ensures 0 <= pos <= |s| ==> |InsertedAt(s, pos, x)| == |s| + 1 && InsertedAt(s, pos, x)[pos] == x
    ensures 0 <= pos <= |s| ==> forall k :: 0 <= k < pos ==> InsertedAt(s, pos, x)[k] == s[k]
    ensures 0 <= pos <= |s| ==> forall k :: pos < k <= |s| ==> InsertedAt(s, pos, x)[k] == s[k - 1]
    ensures pos > |s| ==> InsertedAt(s, pos, x) == s
  {
    if 0 < pos <= |s| {
      var r := InsertedAt(s, pos, x);
      assert r == s[..pos] + [x] + s[pos..];
      assert forall k :: pos < k <= |s| ==> r[k] == s[pos..][k - pos - 1];
    }
  }

  /** A deletion inside the list shrinks it by one and closes the gap; beyond the end it changes nothing. */
  lemma DeletedAtShape<T>(s: seq<T>, pos: int)
    ensures 0 <= pos < |s| ==> |DeletedAt(s, pos)| == |s| - 1
    ensures 0 <= pos < |s| ==> forall k :: 0 <= k < pos ==> DeletedAt(s, pos)[k] == s[k]
    ensures 0 <= pos < |s| ==> forall k :: pos <= k < |s| - 1 ==> DeletedAt(s, pos)[k] == s[k + 1]
    ensures pos >= |s| ==> DeletedAt(s, pos) == s
  {
    if 0 < pos < |s| {
      var r := DeletedAt(s, pos);
      assert r == s[..pos] + s[pos + 1..];
      assert forall k :: pos <= k < |s| - 1 ==> r[k] == s[pos + 1..][k - pos];
    }
  }

  /** Reading back the position just inserted at gives the inserted element. */
  lemma ReadInserted<T>(s: seq<T>, pos: int, x: T, default: T)
    requires 0 <= pos <= |s|
    ensures ReadAt(InsertedAt(s, pos, x), pos, default) == x
  {
    InsertedAtShape(s, pos, x);
  }

  /** Deleting at the position just inserted at restores the list. */
  lemma DeleteUndoesInsert<T>(s: seq<T>, pos: int, x: T)
    requires 0 <= pos <= |s|
    ensures DeletedAt(InsertedAt(s, pos, x), pos) == s
  {
    var r := InsertedAt(s, pos, x);
    InsertedAtShape(s, pos, x);
    DeletedAtShape(r, pos);
    var d := DeletedAt(r, pos);
    assert |d| == |s|;
    forall k | 0 <= k < |s|
      ensures d[k] == s[k]
    {
      if k >= pos {
        assert d[k] == r[k + 1];
      }
    }
  }

  /** Inserting the element just read back at its own position, after deleting it, restores the list. */
  lemma InsertUndoesDelete<T>(s: seq<T>, pos: int, default: T)
    requires 0 <= pos < |s|
    ensures InsertedAt(DeletedAt(s, pos), pos, ReadAt(s, pos, default)) == s
  {
    var d := DeletedAt(s, pos);
    DeletedAtShape(s, pos);
    var r := InsertedAt(d, pos, s[pos]);
    InsertedAtShape(d, pos, s[pos]);
    assert |r| == |s|;
    forall k | 0 <= k < |s|
      ensures r[k] == s[k]
    {
      if k > pos {
        assert r[k] == d[k - 1];
      }
    }
  }
  /** Splicing x in at index i: where every old element moves, and no element twice when there was none and x is new. */
  lemma SplicedIn<T>(s: seq<T>, i: int, x: T)
    requires 0 <= i <= |s|
    ensures var s' := s[..i] + [x] + s[i..];
      |s'| == |s| + 1 && s'[i] == x &&
      (forall k :: 0 <= k < i ==> s'[k] == s[k]) &&
      (forall k :: i < k < |s'| ==> s'[k] == s[k - 1]) &&
      ((x !in s && forall k, m :: 0 <= k < m < |s| ==> s[k] != s[m]) ==>
        forall k, m :: 0 <= k < m < |s'| ==> s'[k] != s'[m])
  {
  }

  /** Splicing out index i: where every remaining element moves. */
  lemma SplicedOut<T>(s: seq<T>, i: int)
    requires 0 <= i < |s|
    ensures var s' := s[..i] + s[i + 1..];
      |s'| == |s| - 1 &&
      (forall k :: 0 <= k < i ==> s'[k] == s[k]) &&
      (forall k :: i <= k < |s'| ==> s'[k] == s[k + 1])
  {
  }
}
