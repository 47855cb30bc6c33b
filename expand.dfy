/** Expansion of a string of nine-element groups into printable units.
    Within a group, element j is a bar when j is even and a space when j is
    odd; a narrow element ('0') is one unit and a wide one ('1') three units
    (the 3:1 ratio). A bar unit is written '1' and a space unit '0'. Each
    group is followed by a one-unit inter-character gap. */
module Expansion {
  import opened Wrappers
  import opened CharSet

  /** The one-unit space between two groups. */
  const Gap: string := "0"

  /** The expanded start/stop guard. */
  const GuardUnits: string := "1000101110111010"

  /** The unit that element position j is drawn with: bar at even positions,
      space at odd ones. */
  function Color(j: nat): char
  {
    if j % 2 == 0 then '1' else '0'
  }

  /** Units of element j of a group whose bit there is b. */
  function Element(j: nat, b: char): (units: string)
    ensures |units| == if b == '1' then 3 else 1
  {
    if j % 2 == 1 then (if b == '1' then "000" else "0")
    else (if b == '1' then "111" else "1")
  }

  /** Every unit of an element has the colour of its position. */
  lemma {:induction false} ElementColour(j: nat, b: char)
    ensures forall u :: 0 <= u < |Element(j, b)| ==> Element(j, b)[u] == Color(j)
  {
  }

  /** Units of elements j, j+1, ... of group g, in order. */
  function ElementsFrom(g: string, j: nat): string
    requires j <= |g|
    decreases |g| - j
  {
    if j == |g| then "" else Element(j, g[j]) + ElementsFrom(g, j + 1)
  }

  /** Units of one nine-element group, followed by the gap. */
  function ExpandGroup(g: string): string
    requires |g| == 9
  {
    ElementsFrom(g, 0) + Gap
  }

  /** Units of a string of groups: the groups expanded in order. */
  function Expand(bits: string): string
    requires |bits| % 9 == 0
    decreases |bits|
  {
    if |bits| == 0 then "" else ExpandGroup(bits[..9]) + Expand(bits[9..])
  }

  /** The nested expansion loops: groups of nine in order, then the nine
      elements of each group in order, then the gap. */
  method ExpandUnits(encode: string) returns (encoded: string)
    requires |encode| % 9 == 0
    ensures encoded == Expand(encode)
  {
    encoded := "";
    var i := 0;
    while i < |encode|
      invariant 0 <= i <= |encode| && i % 9 == 0
      invariant encoded == Expand(encode[..i])
    {
      NextGroupBoundary(i, |encode|);
      var format := encode[i..i + 9];
      ghost var before := encoded;
      var j := 0;
      while j < 9
        invariant 0 <= j <= 9
        invariant encoded + ElementsFrom(format, j) == before + ElementsFrom(format, 0)
      {
        ghost var rest := ElementsFrom(format, j + 1);
        assert ElementsFrom(format, j) == Element(j, format[j]) + rest;
        ghost var prev := encoded;
        if j % 2 == 1 {
          encoded := encoded + (if format[j] == '1' then "000" else "0");
        } else {
          encoded := encoded + (if format[j] == '1' then "111" else "1");
        }
        assert encoded == prev + Element(j, format[j]);
        AppendAssoc(prev, Element(j, format[j]), rest);
        j := j + 1;
      }
      assert ElementsFrom(format, 9) == [];
      assert encoded == before + ElementsFrom(format, 0);
      encoded := encoded + Gap;
      ExpandPrefixStep(encode, i);
      i := i + 9;
    }
    assert encode[..i] == encode;
  }

  /** The group after a group boundary ends on the next one. Kept apart
      from the loop so that the modular arithmetic stays out of its proof. */
  lemma {:induction false} NextGroupBoundary(i: nat, n: nat)
    requires i % 9 == 0 && n % 9 == 0 && i < n
    ensures i + 9 <= n && (i + 9) % 9 == 0
  {
  }

  /** Regrouping a concatenation, as a separate fact so that the loop's
      proof does not search for it. */
  lemma {:induction false} AppendAssoc(a: string, b: string, c: string)
    ensures (a + b) + c == a + (b + c)
  {
  }

  /** Expanding up to group boundary i + 9 is expanding up to i, then the
      group at i. */
  lemma {:induction false} ExpandPrefixStep(bits: string, i: nat)
    requires i % 9 == 0 && i + 9 <= |bits|
    ensures Expand(bits[..i + 9]) == Expand(bits[..i]) + ExpandGroup(bits[i..i + 9])
  {
    var g := bits[i..i + 9];
    assert bits[..i + 9] == bits[..i] + g;
    ExpandSnoc(bits[..i], g);
  }

  /** A group expands to nine elements, two extra units per wide element,
      and the gap; a three-of-nine group to exactly 16 units. */
  lemma {:induction false} ExpandGroupLength(g: string)
    requires |g| == 9
    ensures |ExpandGroup(g)| == 10 + 2 * WideCount(g)
    ensures ThreeOfNine(g) ==> |ExpandGroup(g)| == 16
  {
    assert ElementsFrom(g, 9) == [];
    assert |ElementsFrom(g, 8)| == 1 + 2 * Wide(g[8]);
    assert |ElementsFrom(g, 7)| == 1 + 2 * Wide(g[7]) + |ElementsFrom(g, 8)|;
    assert |ElementsFrom(g, 6)| == 1 + 2 * Wide(g[6]) + |ElementsFrom(g, 7)|;
    assert |ElementsFrom(g, 5)| == 1 + 2 * Wide(g[5]) + |ElementsFrom(g, 6)|;
    assert |ElementsFrom(g, 4)| == 1 + 2 * Wide(g[4]) + |ElementsFrom(g, 5)|;
    assert |ElementsFrom(g, 3)| == 1 + 2 * Wide(g[3]) + |ElementsFrom(g, 4)|;
    assert |ElementsFrom(g, 2)| == 1 + 2 * Wide(g[2]) + |ElementsFrom(g, 3)|;
    assert |ElementsFrom(g, 1)| == 1 + 2 * Wide(g[1]) + |ElementsFrom(g, 2)|;
    assert |ElementsFrom(g, 0)| == 1 + 2 * Wide(g[0]) + |ElementsFrom(g, 1)|;
  }

  /** The guard expands to the fixed unit string 1000101110111010. */
  lemma {:induction false} ExpandGuard()
    ensures ExpandGroup(Guard) == GuardUnits
  {
    var g := Guard;
    assert ElementsFrom(g, 9) == "";
    assert ElementsFrom(g, 8) == "1";
    assert ElementsFrom(g, 7) == "0" + "1";
    assert ElementsFrom(g, 6) == "111" + "01";
    assert ElementsFrom(g, 5) == "0" + "11101";
    assert ElementsFrom(g, 4) == "111" + "011101";
    assert ElementsFrom(g, 3) == "0" + "111011101";
    assert ElementsFrom(g, 2) == "1" + "0111011101";
    assert ElementsFrom(g, 1) == "000" + "10111011101";
    assert ElementsFrom(g, 0) == "1" + "00010111011101";
  }

  /** A single group expands to its own units. */
  lemma {:induction false} ExpandOneGroup(g: string)
    requires |g| == 9
    ensures Expand(g) == ExpandGroup(g)
  {
    assert g[..9] == g && g[9..] == [];
  }

  /** Expanding whole groups followed by one more group. */
  lemma {:induction false} ExpandSnoc(a: string, g: string)
    requires |a| % 9 == 0 && |g| == 9
    ensures Expand(a + g) == Expand(a) + ExpandGroup(g)
  {
    ExpandAppend(a, g);
    ExpandOneGroup(g);
  }

  /** The guard in front of, or behind, whole groups expands to the fixed
      guard units there. */
  lemma {:induction false} ExpandGuardBefore(m: string)
    requires |m| % 9 == 0
    ensures Expand(Guard + m) == GuardUnits + Expand(m)
  {
    ExpandGuard();
    ExpandOneGroup(Guard);
    ExpandAppend(Guard, m);
  }

  lemma {:induction false} ExpandGuardAfter(m: string)
    requires |m| % 9 == 0
    ensures Expand(m + Guard) == Expand(m) + GuardUnits
  {
    ExpandGuard();
    ExpandOneGroup(Guard);
    ExpandAppend(m, Guard);
  }

  /** Whole groups framed by the guard on both sides expand to the guard
      units, the expanded groups and the guard units. */
  lemma {:induction false} ExpandFramed(m: string)
    requires |m| % 9 == 0
    ensures Expand(Guard + m + Guard) == GuardUnits + Expand(m) + GuardUnits
  {
    assert |Guard + m| % 9 == 0;
    ExpandGuardBefore(m);
    ExpandGuardAfter(Guard + m);
  }

  /** Expanding a concatenation of whole groups expands each part in turn. */
  lemma {:induction false} ExpandAppend(a: string, b: string)
    requires |a| % 9 == 0 && |b| % 9 == 0
    ensures Expand(a + b) == Expand(a) + Expand(b)
    decreases |a|
  {
    if |a| == 0 {
      assert a + b == b;
    } else {
      assert (a + b)[..9] == a[..9];
      assert (a + b)[9..] == a[9..] + b;
      ExpandAppend(a[9..], b);
    }
  }

  // ---------------------------------------------------------------------
  // Reading units back into bits: a left inverse of Expand, showing that
  // the expansion loses nothing.

  /** Reads elements j..8 of a group from the front of u. A run of three
      units of the colour expected at position j is a wide element, one
      unit of that colour a narrow one; anything else is not a group.
      Gives the bits read and the units left over. */
  function CollapseElements(u: string, j: nat): (r: Option<(string, string)>)
    requires j <= 9
    ensures r.Some? ==> |r.value.0| == 9 - j && |r.value.1| + (9 - j) <= |u|
    decreases 9 - j
  {
    if j == 9 then Some(("", u))
    else if |u| == 0 || u[0] != Color(j) then None
    else
      var wide := |u| >= 3 && u[1] == Color(j) && u[2] == Color(j);
      var width := if wide then 3 else 1;
      match CollapseElements(u[width..], j + 1)
      case None => None
      case Some((bits, rest)) => Some(((if wide then "1" else "0") + bits, rest))
  }

  /** Reads a whole unit string back into groups of nine bits, each group
      followed by its one-unit gap. */
  function Collapse(units: string): (r: Option<string>)
    decreases |units|
  {
    if |units| == 0 then Some("")
    else
      var head := CollapseElements(units, 0);
      if head.None? then None
      else
        var rest := head.value.1;
        if |rest| == 0 || rest[0] != '0' then None
        else
          var tail := Collapse(rest[1..]);
          if tail.None? then None else Some(head.value.0 + tail.value)
  }

  /** The units of element j onward begin with the colour of position j. */
  lemma {:induction false} ElementsFromStart(g: string, j: nat, tail: string)
    requires j < |g|
    ensures |ElementsFrom(g, j) + tail| > 0 && (ElementsFrom(g, j) + tail)[0] == Color(j)
  {
    ElementColour(j, g[j]);
  }

  /** Reading one element: a run of the expected colour followed by a unit
      of the other colour is read back as the element's bit. */
  lemma {:induction false} CollapseElementStep(j: nat, b: char, more: string, bits: string, rest: string)
    requires j < 9 && (b == '0' || b == '1')
    requires |more| > 0 && more[0] != Color(j)
    requires CollapseElements(more, j + 1) == Some((bits, rest))
    ensures CollapseElements(Element(j, b) + more, j) == Some(([b] + bits, rest))
  {
    var e := Element(j, b);
    var u := e + more;
    ElementColour(j, b);
    assert u[|e|..] == more;
    if b == '1' {
      assert u[0] == Color(j) && u[1] == Color(j) && u[2] == Color(j);
    } else {
      assert u[0] == Color(j) && u[1] == more[0];
    }
  }

  /** Reading elements j..8 of an expanded group gives back bits j..8 of
      the group and leaves the units that follow it. */
  lemma {:induction false} CollapseElementsOfExpand(g: string, j: nat, tail: string)
    requires |g| == 9 && IsBitString(g) && j <= 9
    requires |tail| > 0 && tail[0] == '0'
    ensures CollapseElements(ElementsFrom(g, j) + tail, j) == Some((g[j..], tail))
    decreases 9 - j
  {
    if j == 9 {
      assert ElementsFrom(g, j) + tail == tail;
      assert g[j..] == "";
    } else {
      CollapseElementsOfExpand(g, j + 1, tail);
      CollapseOneElement(g, j, tail);
    }
  }

  lemma {:induction false} CollapseOneElement(g: string, j: nat, tail: string)
    requires |g| == 9 && IsBitString(g) && j < 9
    requires |tail| > 0 && tail[0] == '0'
    requires CollapseElements(ElementsFrom(g, j + 1) + tail, j + 1) == Some((g[j + 1..], tail))
    ensures CollapseElements(ElementsFrom(g, j) + tail, j) == Some((g[j..], tail))
  {
    NextUnit(g, j, tail);
    ElementsFromCons(g, j, tail);
    CollapseElementStep(j, g[j], ElementsFrom(g, j + 1) + tail, g[j + 1..], tail);
    SuffixCons(g, j);
  }

  /** The units from element j on are element j's units, then the rest. */
  lemma {:induction false} ElementsFromCons(g: string, j: nat, tail: string)
    requires j < |g|
    ensures ElementsFrom(g, j) + tail == Element(j, g[j]) + (ElementsFrom(g, j + 1) + tail)
  {
  }

  /** The bits from position j on are bit j, then the rest. */
  lemma {:induction false} SuffixCons(g: string, j: nat)
    requires j < |g|
    ensures g[j..] == [g[j]] + g[j + 1..]
  {
  }

  lemma {:induction false} NextUnit(g: string, j: nat, tail: string)
    requires |g| == 9 && j < 9
    requires |tail| > 0 && tail[0] == '0'
    ensures |ElementsFrom(g, j + 1) + tail| > 0 && (ElementsFrom(g, j + 1) + tail)[0] != Color(j)
  {
    if j < 8 {
      ElementsFromStart(g, j + 1, tail);
    } else {
      assert ElementsFrom(g, j + 1) == [];
    }
  }

  /** Collapse undoes Expand on every string of whole groups of bits. */
  lemma {:induction false} CollapseExpand(bits: string)
    requires |bits| % 9 == 0 && IsBitString(bits)
    ensures Collapse(Expand(bits)) == Some(bits)
    decreases |bits|
  {
    if |bits| > 0 {
      var g, rest := bits[..9], bits[9..];
      var tail := Gap + Expand(rest);
      assert Expand(bits) == ElementsFrom(g, 0) + tail;
      CollapseElementsOfExpand(g, 0, tail);
      assert tail[1..] == Expand(rest);
      CollapseExpand(rest);
      assert g + rest == bits;
    }
  }

  /** Two different strings of bit groups never expand to the same units. */
  lemma {:induction false} ExpandInjective(a: string, b: string)
    requires |a| % 9 == 0 && IsBitString(a)
    requires |b| % 9 == 0 && IsBitString(b)
    requires Expand(a) == Expand(b)
    ensures a == b
  {
    CollapseExpand(a);
    CollapseExpand(b);
  }

}
