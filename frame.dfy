/** A symbol before expansion: a sequence of three-of-nine groups written one
    after another and framed by the start/stop guard at both ends. The
    layout facts are stated here for any such sequence of groups. */
module Framing {
  import opened CharSet
  import opened Expansion

  /** Every group is a three-of-nine pattern. */
  predicate AllThreeOfNine(gs: seq<string>)
  {
    forall k :: 0 <= k < |gs| ==> ThreeOfNine(gs[k])
  }

  /** The groups written one after another, in order. */
  function Concat(gs: seq<string>): (bits: string)
    requires AllThreeOfNine(gs)
    ensures |bits| == 9 * |gs|
  {
    if |gs| == 0 then "" else Concat(gs[..|gs| - 1]) + gs[|gs| - 1]
  }

  /** The groups framed by the guard on both sides. */
  function Framed(gs: seq<string>): (bits: string)
    requires AllThreeOfNine(gs)
    ensures |bits| == 9 * (|gs| + 2) && |bits| % 9 == 0
  {
    Guard + Concat(gs) + Guard
  }

  /** Slices of a concatenation that fall inside one of its parts. */
  lemma {:induction false} SliceLeft(a: string, b: string, i: nat, j: nat)
    requires i <= j <= |a|
    ensures (a + b)[i..j] == a[i..j]
  {
  }

  lemma {:induction false} SliceRight(a: string, b: string, i: nat, j: nat)
    requires |a| <= i <= j <= |a| + |b|
    ensures (a + b)[i..j] == b[i - |a|..j - |a|]
  {
  }

  /** Appending one more group appends its nine bits. */
  lemma {:induction false} ConcatSnoc(gs: seq<string>, g: string)
    requires AllThreeOfNine(gs) && ThreeOfNine(g)
    ensures AllThreeOfNine(gs + [g])
    ensures Concat(gs + [g]) == Concat(gs) + g
  {
    assert (gs + [g])[..|gs|] == gs;
  }

  /** Bits 9k..9k+9 of the concatenation are group k. */
  lemma {:induction false} ConcatGroups(gs: seq<string>)
    requires AllThreeOfNine(gs)
    ensures forall k :: 0 <= k < |gs| ==> Concat(gs)[9 * k..9 * k + 9] == gs[k]
    decreases |gs|
  {
    if |gs| > 0 {
      var init := gs[..|gs| - 1];
      var last := gs[|gs| - 1];
      ConcatGroups(init);
      forall k | 0 <= k < |gs|
        ensures Concat(gs)[9 * k..9 * k + 9] == gs[k]
      {
        if k < |gs| - 1 {
          SliceLeft(Concat(init), last, 9 * k, 9 * k + 9);
          assert gs[k] == init[k];
        } else {
          SliceRight(Concat(init), last, 9 * k, 9 * k + 9);
        }
      }
    }
  }

  /** Units 16k..16k+16 of the expanded concatenation are the expansion of
      group k. */
  lemma {:induction false} ExpandConcat(gs: seq<string>)
    requires AllThreeOfNine(gs)
    ensures |Expand(Concat(gs))| == 16 * |gs|
    ensures forall k :: 0 <= k < |gs| ==>
              Expand(Concat(gs))[16 * k..16 * k + 16] == ExpandGroup(gs[k])
    decreases |gs|
  {
    if |gs| > 0 {
      ExpandConcat(gs[..|gs| - 1]);
      ExpandConcatStep(gs);
    }
  }

  /** The step of ExpandConcat: the last group's units follow those of the
      groups before it, which stay where they were. */
  lemma {:induction false} ExpandConcatStep(gs: seq<string>)
    requires |gs| > 0 && AllThreeOfNine(gs)
    requires var init := gs[..|gs| - 1];
      && |Expand(Concat(init))| == 16 * |init|
      && forall k :: 0 <= k < |init| ==> Expand(Concat(init))[16 * k..16 * k + 16] == ExpandGroup(init[k])
    ensures |Expand(Concat(gs))| == 16 * |gs|
    ensures forall k :: 0 <= k < |gs| ==>
              Expand(Concat(gs))[16 * k..16 * k + 16] == ExpandGroup(gs[k])
  {
    var init := gs[..|gs| - 1];
    var last := gs[|gs| - 1];
    ExpandSnoc(Concat(init), last);
    ExpandGroupLength(last);
    var front := Expand(Concat(init));
    forall k | 0 <= k < |gs|
      ensures (front + ExpandGroup(last))[16 * k..16 * k + 16] == ExpandGroup(gs[k])
    {
      if k < |gs| - 1 {
        ChunkBound(k, |init|);
        SliceLeft(front, ExpandGroup(last), 16 * k, 16 * k + 16);
        assert gs[k] == init[k];
      } else {
        SliceRight(front, ExpandGroup(last), 16 * k, 16 * k + 16);
      }
    }
  }

  /** Group k of n groups of 16 ends within the first 16n units. Kept apart
      from the slicing proofs so that their arithmetic stays small. */
  lemma {:induction false} ChunkBound(k: nat, n: nat)
    requires k < n
    ensures 16 * k + 16 <= 16 * n
  {
  }

  /** The framed bits: the guard, then group k at bits 9(k+1)..9(k+2), then
      the guard again. */
  lemma {:induction false} FramedLayout(gs: seq<string>)
    requires AllThreeOfNine(gs)
    ensures var bits := Framed(gs);
      && bits[..9] == Guard
      && (forall k :: 0 <= k < |gs| ==> bits[9 * (k + 1)..9 * (k + 2)] == gs[k])
      && bits[|bits| - 9..] == Guard
  {
    var middle := Concat(gs);
    var bits := Guard + middle + Guard;
    assert bits == Guard + (middle + Guard);
    SliceLeft(Guard, middle + Guard, 0, 9);
    SliceRight(Guard + middle, Guard, |bits| - 9, |bits|);
    ConcatGroups(gs);
    forall k | 0 <= k < |gs|
      ensures bits[9 * (k + 1)..9 * (k + 2)] == gs[k]
    {
      SliceLeft(Guard + middle, Guard, 9 * (k + 1), 9 * (k + 2));
      SliceRight(Guard, middle, 9 * (k + 1), 9 * (k + 2));
    }
  }

  /** The expanded framed bits: 16 units per group, with the guard units
      first and last. */
  lemma {:induction false} FramedUnits(gs: seq<string>)
    requires AllThreeOfNine(gs)
    ensures var units := Expand(Framed(gs));
      && |units| == 16 * (|gs| + 2)
      && units[..16] == GuardUnits
      && units[|units| - 16..] == GuardUnits
  {
    ExpandFramed(Concat(gs));
    ExpandConcat(gs);
    FrameEnds(GuardUnits, Expand(Concat(gs)));
  }

  /** A text framed by a on both sides begins and ends with a. */
  lemma {:induction false} FrameEnds(a: string, m: string)
    ensures (a + m + a)[..|a|] == a
    ensures (a + m + a)[|a + m + a| - |a|..] == a
  {
    assert a + m + a == a + (m + a);
    SliceLeft(a, m + a, 0, |a|);
    SliceRight(a + m, a, |a + m + a| - |a|, |a + m + a|);
  }

  /** Units 16(k+1)..16(k+2) of the expanded framed bits are the expansion
      of group k. */
  lemma {:induction false} FramedUnitGroups(gs: seq<string>)
    requires AllThreeOfNine(gs)
    ensures var units := Expand(Framed(gs));
      && |units| == 16 * (|gs| + 2)
      && forall k :: 0 <= k < |gs| ==> units[16 * (k + 1)..16 * (k + 2)] == ExpandGroup(gs[k])
  {
    var middle := Expand(Concat(gs));
    ExpandFramed(Concat(gs));
    ExpandConcat(gs);
    var units := GuardUnits + middle + GuardUnits;
    forall k | 0 <= k < |gs|
      ensures units[16 * (k + 1)..16 * (k + 2)] == ExpandGroup(gs[k])
    {
      SliceLeft(GuardUnits + middle, GuardUnits, 16 * (k + 1), 16 * (k + 2));
      SliceRight(GuardUnits, middle, 16 * (k + 1), 16 * (k + 2));
    }
  }

}
