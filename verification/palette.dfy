/** The round-robin colour assigner of the nodes service: a fixed palette of eleven
    CSS hex colours and a cursor into it. */
module Palette {

  /** The colour pool, in the order the assigner hands the colours out. */
  const ColorPool: seq<string> := [
    "#F6AF8E", "#C3A5FF", "#B1D0A5", "#F6ED8E", "#8EF4F6", "#C0F68E",
    "#F68ECB", "#8E97F6", "#F68EAB", "#F6CE8E", "#DFF68E"
  ]

  /** The cursor after one assignment: the next slot, wrapping from the last back to the first. */
  function Advance(cursor: nat): (next: nat)
    requires cursor < |ColorPool|
    ensures next < |ColorPool|
    ensures cursor < |ColorPool| - 1 ==> next == cursor + 1
    ensures cursor == |ColorPool| - 1 ==> next == 0
  {
    (cursor + 1) % |ColorPool|
  }

  /** The colours handed out by `k` consecutive assignments that start at `cursor`. */
  function Assigned(cursor: nat, k: nat): (colors: seq<string>)
    requires cursor < |ColorPool|
    ensures |colors| == k
    decreases k
  {
    if k == 0 then [] else [ColorPool[cursor]] + Assigned(Advance(cursor), k - 1)
  }

  /** The cursor left behind by `k` consecutive assignments that start at `cursor`. */
  function CursorAfter(cursor: nat, k: nat): (c: nat)
    requires cursor < |ColorPool|
    decreases k
  {
    if k == 0 then cursor else CursorAfter(Advance(cursor), k - 1)
  }

  /** One step of the cursor followed by n more is n + 1 steps round the palette. */
  lemma AdvanceThen(cursor: nat, n: nat)
    requires cursor < |ColorPool|
    ensures (Advance(cursor) + n) % |ColorPool| == (cursor + 1 + n) % |ColorPool|
  {
    if cursor == |ColorPool| - 1 {
      assert cursor + 1 + n == n + |ColorPool|;
    }
  }

  /** The i-th of k consecutive assignments yields the palette entry i places after the
      starting cursor, counted round the palette. */
  lemma {:induction false} AssignedInOrder(cursor: nat, k: nat, i: nat)
    requires cursor < |ColorPool| && i < k
    ensures Assigned(cursor, k)[i] == ColorPool[(cursor + i) % |ColorPool|]
    decreases k
  {
    if i > 0 {
      AssignedInOrder(Advance(cursor), k - 1, i - 1);
      AdvanceThen(cursor, i - 1);
    }
  }

  /** After k assignments the cursor has moved k places round the palette, so it always
      stays inside the palette. */
  lemma {:induction false} CursorAfterWraps(cursor: nat, k: nat)
    requires cursor < |ColorPool|
    ensures CursorAfter(cursor, k) == (cursor + k) % |ColorPool|
    ensures CursorAfter(cursor, k) < |ColorPool|
    decreases k
  {
    if k > 0 {
      CursorAfterWraps(Advance(cursor), k - 1);
      AdvanceThen(cursor, k - 1);
    }
  }

  /** The sequence repeats with the palette's period: assignment i + 11 yields the same
      colour as assignment i. */
  lemma AssignedPeriodic(cursor: nat, k: nat, i: nat)
    requires cursor < |ColorPool| && i + |ColorPool| < k
    ensures Assigned(cursor, k)[i + |ColorPool|] == Assigned(cursor, k)[i]
  {
    AssignedInOrder(cursor, k, i);
    AssignedInOrder(cursor, k, i + |ColorPool|);
    assert (cursor + i + |ColorPool|) % |ColorPool| == (cursor + i) % |ColorPool|;
  }

  /** From a fresh cursor the first colour is "#F6AF8E", eleven assignments give the whole
      palette in order, and the twelfth wraps back to the first colour. */
  lemma FirstRound()
    ensures Assigned(0, 1) == ["#F6AF8E"]
    ensures Assigned(0, |ColorPool|) == ColorPool
    ensures Assigned(0, |ColorPool| + 1)[|ColorPool|] == "#F6AF8E"
    ensures CursorAfter(0, |ColorPool|) == 0
  {
    forall i | 0 <= i < |ColorPool| ensures Assigned(0, |ColorPool|)[i] == ColorPool[i] {
      AssignedInOrder(0, |ColorPool|, i);
    }
    AssignedInOrder(0, |ColorPool| + 1, |ColorPool|);
    CursorAfterWraps(0, |ColorPool|);
  }
}
