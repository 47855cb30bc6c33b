/** Normalisation of the data to encode: every space becomes an underscore,
    every asterisk (reserved for the start/stop guard) is removed, and the
    text is upper-cased. */
module Normalization {
  import opened CharSet

  /** Position of the first occurrence of c in s, or -1 when there is none. */
  function IndexOf(s: string, c: char): (k: int)
    ensures -1 <= k < |s|
    ensures k == -1 <==> c !in s
    ensures 0 <= k ==> s[k] == c && c !in s[..k]
  {
    if |s| == 0 then -1
    else if s[0] == c then 0
    else
      var k := IndexOf(s[1..], c);
      assert s == [s[0]] + s[1..];
      if k == -1 then -1
      else
        assert s[..k + 1] == [s[0]] + s[1..][..k];
        k + 1
  }

  /** The text with its first occurrence of c replaced by r (unchanged if
      there is none). */
  function ReplaceFirst(s: string, c: char, r: string): (t: string)
    ensures c !in s ==> t == s
    ensures c in s ==> |t| == |s| - 1 + |r|
    ensures c in s ==> exists k :: 0 <= k < |s| && s[k] == c && c !in s[..k] && t == s[..k] + r + s[k + 1..]
  {
    var k := IndexOf(s, c);
    if k == -1 then s else s[..k] + r + s[k + 1..]
  }

  /** Number of occurrences of c in s. */
  function Count(s: string, c: char): nat
  {
    if |s| == 0 then 0 else (if s[0] == c then 1 else 0) + Count(s[1..], c)
  }

  /** Every space replaced, in place, by an underscore. */
  function ReplaceSpaces(s: string): string
  {
    seq(|s|, i requires 0 <= i < |s| => if s[i] == ' ' then '_' else s[i])
  }

  /** The text with every asterisk removed and every other character kept, in order. */
  function RemoveStars(s: string): string
  {
    if |s| == 0 then [] else (if s[0] == '*' then [] else [s[0]]) + RemoveStars(s[1..])
  }

  /** ASCII upper-casing of one character. */
  function UpperAscii(c: char): char
  {
    if IsLower(c) then (c as int - 32) as char else c
  }

  function ToUpper(s: string): string
  {
    seq(|s|, i requires 0 <= i < |s| => UpperAscii(s[i]))
  }

  /** The data as the encoder sees it after its three normalising steps. */
  function Normalize(s: string): string
  {
    ToUpper(RemoveStars(ReplaceSpaces(s)))
  }

  /** The form a single kept (non-asterisk) input character takes. */
  function NormalizeChar(c: char): char
  {
    UpperAscii(if c == ' ' then '_' else c)
  }

  /** Reference definition of normalisation one input character at a time:
      an asterisk contributes nothing, any other character contributes its
      normalised form, in input order. */
  function NormalizeByChar(s: string): string
  {
    if |s| == 0 then [] else (if s[0] == '*' then [] else [NormalizeChar(s[0])]) + NormalizeByChar(s[1..])
  }

  lemma {:induction false} RemoveStarsAppend(a: string, b: string)
    ensures RemoveStars(a + b) == RemoveStars(a) + RemoveStars(b)
    decreases |a|
  {
    if |a| > 0 {
      assert (a + b)[1..] == a[1..] + b;
      RemoveStarsAppend(a[1..], b);
    } else {
      assert a + b == b;
    }
  }

  /** Removing asterisks from text that has none changes nothing. */
  lemma {:induction false} RemoveStarsNoStars(s: string)
    requires '*' !in s
    ensures RemoveStars(s) == s
    decreases |s|
  {
    if |s| > 0 {
      assert s[0] in s;
      assert forall c :: c in s[1..] ==> c in s;
      RemoveStarsNoStars(s[1..]);
    }
  }

  /** A character survives asterisk removal exactly when it was in the
      text and is not an asterisk. */
  lemma {:induction false} RemoveStarsMembers(s: string, c: char)
    ensures c in RemoveStars(s) <==> c in s && c != '*'
    decreases |s|
  {
    if |s| > 0 {
      RemoveStarsMembers(s[1..], c);
      assert s == [s[0]] + s[1..];
    }
  }

  /** Asterisk removal shortens the text by the number of asterisks. */
  lemma {:induction false} RemoveStarsLength(s: string)
    ensures |RemoveStars(s)| == |s| - Count(s, '*')
    decreases |s|
  {
    if |s| > 0 {
      RemoveStarsLength(s[1..]);
    }
  }

  /** Counting distributes over concatenation. */
  lemma {:induction false} CountAppend(a: string, b: string, c: char)
    ensures Count(a + b, c) == Count(a, c) + Count(b, c)
    decreases |a|
  {
    if |a| == 0 {
      assert a + b == b;
    } else {
      assert (a + b)[1..] == a[1..] + b;
      CountAppend(a[1..], b, c);
    }
  }

  /** One step of the space loop keeps the overall replacement and removes
      one space. */
  lemma {:induction false} ReplaceSpaceStep(r: string, k: nat)
    requires k < |r| && r[k] == ' '
    ensures ReplaceSpaces(r[..k] + "_" + r[k + 1..]) == ReplaceSpaces(r)
    ensures Count(r[..k] + "_" + r[k + 1..], ' ') < Count(r, ' ')
  {
    var next := r[..k] + "_" + r[k + 1..];
    assert |next| == |r|;
    forall i | 0 <= i < |r|
      ensures ReplaceSpaces(next)[i] == ReplaceSpaces(r)[i]
    {
      if i < k {
        assert next[i] == r[i];
      } else if i > k {
        assert next[i] == r[i];
      }
    }
    assert r == r[..k] + [r[k]] + r[k + 1..];
    CountAppend(r[..k] + [r[k]], r[k + 1..], ' ');
    CountAppend(r[..k], [r[k]], ' ');
    CountAppend(r[..k] + "_", r[k + 1..], ' ');
    CountAppend(r[..k], "_", ' ');
  }

  /** One step of the asterisk loop keeps the overall removal and
      shortens the text. */
  lemma {:induction false} RemoveStarStep(r: string, k: nat)
    requires k < |r| && r[k] == '*'
    ensures RemoveStars(r[..k] + "" + r[k + 1..]) == RemoveStars(r)
  {
    assert r[..k] + "" + r[k + 1..] == r[..k] + r[k + 1..];
    assert r == r[..k] + ([r[k]] + r[k + 1..]);
    RemoveStarsAppend(r[..k], [r[k]] + r[k + 1..]);
    RemoveStarsAppend(r[..k], r[k + 1..]);
    assert ([r[k]] + r[k + 1..])[1..] == r[k + 1..];
  }

  /** The space loop: replacing the first space until none is left. Each
      step keeps ReplaceSpaces of the text unchanged, and the number of
      spaces falls by one. */
  method ReplaceAllSpaces(data: string) returns (r: string)
    ensures r == ReplaceSpaces(data)
  {
    r := data;
    while IndexOf(r, ' ') != -1
      invariant ReplaceSpaces(r) == ReplaceSpaces(data)
      decreases Count(r, ' ')
    {
      var next := ReplaceFirst(r, ' ', "_");
      ReplaceSpaceStep(r, IndexOf(r, ' '));
      r := next;
    }
    assert forall i :: 0 <= i < |r| ==> r[i] != ' ' by {
      forall i | 0 <= i < |r| ensures r[i] != ' ' { assert r[i] in r; }
    }
    assert ReplaceSpaces(r) == r;
  }

  /** The asterisk loop: removing the first asterisk until none is left. */
  method RemoveAllStars(data: string) returns (r: string)
    ensures r == RemoveStars(data)
  {
    r := data;
    while IndexOf(r, '*') != -1
      invariant RemoveStars(r) == RemoveStars(data)
      decreases |r|
    {
      var next := ReplaceFirst(r, '*', "");
      RemoveStarStep(r, IndexOf(r, '*'));
      r := next;
    }
    RemoveStarsNoStars(r);
  }

  /** The encoder's normalising steps, in their order: the space loop, the
      asterisk loop, then upper-casing. */
  method NormalizeInput(data: string) returns (normalized: string)
    ensures normalized == Normalize(data)
  {
    var spaced := ReplaceAllSpaces(data);
    var starless := RemoveAllStars(spaced);
    normalized := ToUpper(starless);
  }

  /** Normalised text holds no space, no asterisk and no lower-case ASCII
      letter, and is shorter than the input by exactly its asterisks. */
  lemma {:induction false} NormalizeShape(s: string)
    ensures |Normalize(s)| == |s| - Count(s, '*')
    ensures forall i :: 0 <= i < |Normalize(s)| ==>
              Normalize(s)[i] != ' ' && Normalize(s)[i] != '*' && !IsLower(Normalize(s)[i])
  {
    var spaced := ReplaceSpaces(s);
    var starless := RemoveStars(spaced);
    RemoveStarsLength(spaced);
    CountUnderReplaceSpaces(s);
    forall i | 0 <= i < |starless|
      ensures starless[i] != ' ' && starless[i] != '*'
    {
      assert starless[i] in starless;
      RemoveStarsMembers(spaced, starless[i]);
    }
  }

  /** Replacing spaces leaves the asterisks where they were. */
  lemma {:induction false} CountUnderReplaceSpaces(s: string)
    ensures Count(ReplaceSpaces(s), '*') == Count(s, '*')
    decreases |s|
  {
    if |s| > 0 {
      assert ReplaceSpaces(s)[1..] == ReplaceSpaces(s[1..]);
      CountUnderReplaceSpaces(s[1..]);
    }
  }

  /** The three whole-text steps agree with the character-by-character
      reference: each input character independently yields nothing (an
      asterisk) or its normalised form, and the order is kept. */
  lemma {:induction false} NormalizePerCharacter(s: string)
    ensures Normalize(s) == NormalizeByChar(s)
    decreases |s|
  {
    if |s| > 0 {
      var spaced := ReplaceSpaces(s);
      assert spaced == [spaced[0]] + ReplaceSpaces(s[1..]);
      assert RemoveStars(spaced) == (if s[0] == '*' then [] else [spaced[0]]) + RemoveStars(ReplaceSpaces(s[1..]));
      NormalizePerCharacter(s[1..]);
      var head: string := if s[0] == '*' then [] else [spaced[0]];
      ToUpperAppend(head, RemoveStars(ReplaceSpaces(s[1..])));
    }
  }

  lemma {:induction false} ToUpperAppend(a: string, b: string)
    ensures ToUpper(a + b) == ToUpper(a) + ToUpper(b)
  {
  }

  /** Normalising twice is the same as normalising once: normalised data
      is a fixed point of normalisation. */
  lemma {:induction false} NormalizeIdempotent(s: string)
    ensures Normalize(Normalize(s)) == Normalize(s)
  {
    NormalizePerCharacter(s);
    NormalizeByCharIdempotent(s);
    NormalizePerCharacter(NormalizeByChar(s));
  }

  lemma {:induction false} NormalizeByCharIdempotent(s: string)
    ensures NormalizeByChar(NormalizeByChar(s)) == NormalizeByChar(s)
    decreases |s|
  {
    if |s| > 0 {
      NormalizeByCharIdempotent(s[1..]);
      if s[0] == '*' {
        assert NormalizeByChar(s) == NormalizeByChar(s[1..]);
      } else {
        NormalizeByCharCons(NormalizeChar(s[0]), NormalizeByChar(s[1..]));
      }
    }
  }

  /** A normalised character is kept as it is, in front of the rest. */
  lemma {:induction false} NormalizeByCharCons(c: char, t: string)
    requires c == NormalizeChar(c) && c != '*'
    ensures NormalizeByChar([c] + t) == [c] + NormalizeByChar(t)
  {
    assert ([c] + t)[1..] == t;
  }

}
