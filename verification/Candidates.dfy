/** Choosing the block to collect (gc_find_candidate of spiffs_gc.c): a table of the best-scoring
    blocks, kept sorted in place in the work buffer. */
module Candidates {
  import opened Layout
  import opened Catalog
  import opened Store

  datatype Cand = Cand(bix: nat, score: int)

  /** Better score first, lower block number first among equals. */
  predicate Before(a: Cand, b: Cand) {
    a.score > b.score || (a.score == b.score && a.bix < b.bix)
  }

  ghost predicate Sorted(t: seq<Cand>) {
    forall i, j | 0 <= i < j < |t| :: Before(t[i], t[j])
  }

  /** The table `r` is full, and all that it holds comes before `a`. */
  ghost predicate BeforeAll(r: seq<Cand>, a: Cand, max: nat) {
    |r| == max && forall j | 0 <= j < |r| :: Before(r[j], a)
  }

  /** `t` holds the best `max` of `all`, best first. */
  ghost predicate TopTable(t: seq<Cand>, all: seq<Cand>, max: nat) {
    && |t| == (if |all| <= max then |all| else max)
    && Sorted(t)
    && (forall c | c in t :: c in all)
    && (forall c | c in all :: c in t || BeforeAll(t, c, max))
  }

  /** First place in the table whose score is lower. */
  function Place(t: seq<Cand>, score: int): (i: nat)
    ensures i <= |t|
    ensures forall j | 0 <= j < i :: t[j].score >= score
    ensures i < |t| ==> t[i].score < score
  {
    if t == [] || t[0].score < score then 0 else 1 + Place(t[1..], score)
  }

  function Inserted(t: seq<Cand>, i: nat, c: Cand): (u: seq<Cand>)
    requires i <= |t|
    ensures |u| == |t| + 1 && u[i] == c
    ensures forall j | 0 <= j < i :: u[j] == t[j]
    ensures forall j | i < j < |u| :: u[j] == t[j - 1]
  {
    t[..i] + [c] + t[i..]
  }

  function Cut(t: seq<Cand>, max: nat): (r: seq<Cand>)
    ensures |r| == if |t| <= max then |t| else max
    ensures forall j | 0 <= j < |r| :: r[j] == t[j]
  {
    if |t| <= max then t else t[..max]
  }

  function Insert(t: seq<Cand>, c: Cand, max: nat): seq<Cand> {
    Cut(Inserted(t, Place(t, c.score), c), max)
  }

  /** Inserting a block with a higher number keeps the table the best of all blocks seen. */
  lemma InsertTop(t: seq<Cand>, all: seq<Cand>, max: nat, c: Cand)
    requires TopTable(t, all, max) && forall a | a in all :: a.bix < c.bix
    ensures TopTable(Insert(t, c, max), all + [c], max)
  {
    hide Inserted, Cut;
    var i := Place(t, c.score);
    var u := Inserted(t, i, c);
    var r := Cut(u, max);
    InsertSorted(t, c, i);
    assert Sorted(r);
    forall a | a in r
      ensures a in all + [c]
    {
      var j :| 0 <= j < |r| && r[j] == a;
      assert j != i ==> a == t[if j < i then j else j - 1];
    }
    InsertRest(t, all, max, c, i);
  }

  /** What is not in the table comes after all that is. */
  lemma InsertRest(t: seq<Cand>, all: seq<Cand>, max: nat, c: Cand, i: nat)
    requires TopTable(t, all, max) && i == Place(t, c.score) && Sorted(Inserted(t, i, c))
    ensures forall a | a in all + [c] :: a in Insert(t, c, max) || BeforeAll(Insert(t, c, max), a, max)
  {
    hide Inserted, Cut, Before, Place;
    var u := Inserted(t, i, c);
    var r := Cut(u, max);
    forall a | a in all + [c]
      ensures a in r || BeforeAll(r, a, max)
    {
      if a in t {
        var j :| 0 <= j < |t| && t[j] == a;
        InTable(u, r, if j < i then j else j + 1, max);
      } else if a == c {
        InTable(u, r, i, max);
      } else {
        LaterThanAll(t, c, i, a, max);
      }
    }
  }

  lemma InTable(u: seq<Cand>, r: seq<Cand>, j: nat, max: nat)
    requires Sorted(u) && j < |u| && r == Cut(u, max)
    ensures u[j] in r || BeforeAll(r, u[j], max)
  {
    if j < |r| {
      assert r[j] == u[j];
    }
  }

  lemma InsertSorted(t: seq<Cand>, c: Cand, i: nat)
    requires Sorted(t) && i == Place(t, c.score) && forall j | 0 <= j < |t| :: t[j].bix < c.bix
    ensures Sorted(Inserted(t, i, c))
  {
    hide Inserted;
    var u := Inserted(t, i, c);
    forall j, k | 0 <= j < k < |u|
      ensures Before(u[j], u[k])
    {
      if j == i && k > i + 1 {
        assert Before(t[i], t[k - 1]);
      }
    }
  }

  lemma LaterThanAll(t: seq<Cand>, c: Cand, i: nat, a: Cand, max: nat)
    requires i == Place(t, c.score) && BeforeAll(t, a, max)
    ensures BeforeAll(Cut(Inserted(t, i, c), max), a, max)
  {
    hide Inserted, Cut;
    if i < |t| {
      assert Before(t[i], a);
    }
  }

  // ----- the table in the work buffer -----

  /** The table as the code stores it: block numbers and scores, with -1 for an empty place. */
  ghost predicate Stored(blocks: array<int>, scores: array<int>, t: seq<Cand>)
    reads blocks, scores
  {
    && blocks.Length == scores.Length && |t| <= blocks.Length
    && (forall i | 0 <= i < |t| :: blocks[i] == t[i].bix && scores[i] == t[i].score)
    && (forall i | |t| <= i < blocks.Length :: blocks[i] == -1)
  }

  /** Moves the table entries from place `ix` on one place down; the last one drops out. */
  method ShiftDown(blocks: array<int>, scores: array<int>, ix: nat)
    requires blocks != scores && blocks.Length == scores.Length && ix < blocks.Length
    modifies blocks, scores
    ensures forall i | 0 <= i < blocks.Length && i != ix :: blocks[i] == old(blocks[if i < ix then i else i - 1])
    ensures forall i | 0 <= i < blocks.Length && i != ix :: scores[i] == old(scores[if i < ix then i else i - 1])
  {
    var k := blocks.Length - 2;
    while k >= ix
      invariant ix - 1 <= k <= blocks.Length - 2
      invariant forall i | 0 <= i <= k :: blocks[i] == old(blocks[i]) && scores[i] == old(scores[i])
      invariant k >= ix || ix == blocks.Length - 1 ==> blocks[k + 1] == old(blocks[k + 1]) && scores[k + 1] == old(scores[k + 1])
      invariant forall i | k + 1 < i < blocks.Length :: blocks[i] == old(blocks[i - 1]) && scores[i] == old(scores[i - 1])
      invariant forall i | 0 <= i < ix :: blocks[i] == old(blocks[i]) && scores[i] == old(scores[i])
      decreases k
    {
      blocks[k + 1] := blocks[k];
      scores[k + 1] := scores[k];
      k := k - 1;
    }
  }

  /** Puts a block into the sorted table, in place. */
  method InsertInto(blocks: array<int>, scores: array<int>, ghost t: seq<Cand>, c: Cand)
    requires blocks != scores && Stored(blocks, scores, t)
    modifies blocks, scores
    ensures Stored(blocks, scores, Insert(t, c, blocks.Length))
  {
    hide Inserted, Cut;
    var ix := 0;
    while ix < blocks.Length
      invariant 0 <= ix <= blocks.Length && ix <= |t| && ix <= Place(t, c.score)
      invariant Stored(blocks, scores, t)
    {
      if blocks[ix] == -1 {
        assert |t| == ix == Place(t, c.score);
        blocks[ix] := c.bix;
        scores[ix] := c.score;
        return;
      } else if scores[ix] < c.score {
        assert ix == Place(t, c.score);
        ShiftDown(blocks, scores, ix);
        blocks[ix] := c.bix;
        scores[ix] := c.score;
        return;
      }
      ix := ix + 1;
    }
    assert |t| == blocks.Length == Place(t, c.score);
  }
}
