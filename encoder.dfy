/** The Code 39 encoder: the normalised data is validated character by
    character, each character's pattern is appended while the indices are
    summed for the modulo-43 check digit, the check-digit pattern is
    appended on request, the whole is framed by the guard at both ends, and
    the bits are expanded into units. */
module Code39 {
  import opened Wrappers
  import opened CharSet
  import opened Normalization
  import opened Expansion
  import opened Framing

  /** Every character of s has a pattern of its own. */
  predicate AllCode39(s: string)
  {
    forall i :: 0 <= i < |s| ==> IsCode39Char(s[i])
  }

  /** Sum of the indices of the characters of s: at most 42 per character. */
  function SumIndices(s: string): (sum: nat)
    requires AllCode39(s)
    ensures sum <= 42 * |s|
  {
    if |s| == 0 then 0 else SumIndices(s[..|s| - 1]) + CharIndex(s[|s| - 1])
  }

  /** The modulo-43 check digit of the data: always a valid table index. */
  function CheckDigit(s: string): (d: nat)
    requires AllCode39(s)
    ensures d < AlphabetSize
  {
    SumIndices(s) % 43
  }

  /** The pattern of each data character, in input order. */
  function DataPatterns(s: string): (gs: seq<string>)
    requires AllCode39(s)
    ensures |gs| == |s| && AllThreeOfNine(gs)
  {
    seq(|s|, k requires 0 <= k < |s| => Pattern(CharIndex(s[k])))
  }

  /** The groups between the guards: the data patterns, then the pattern
      of the check digit when it is requested. */
  function Groups(s: string, addCheckDigit: bool): (gs: seq<string>)
    requires AllCode39(s)
    ensures |gs| == |s| + (if addCheckDigit then 1 else 0) && AllThreeOfNine(gs)
  {
    DataPatterns(s) + (if addCheckDigit then [Pattern(CheckDigit(s))] else [])
  }

  /** What the encoder computes: None when a normalised character has no
      pattern, otherwise the expanded units of the framed groups. */
  function Encode(input: string, addCheckDigit: bool): Option<string>
  {
    var data := Normalize(input);
    if AllCode39(data) then Some(Expand(Framed(Groups(data, addCheckDigit)))) else None
  }

  /** The encoder's own way of reporting the outcome: the units, or the
      empty string on failure. */
  function LegacyString(r: Option<string>): string
  {
    if r.Some? then r.value else ""
  }

  /** The encoder as written: the normalising loops, then the pass over
      the data, the check digit, the guards and the expansion loops. */
  method Code39(dataToEncode: string, addCheckDigit: bool) returns (encoded: string)
    ensures encoded == LegacyString(Encode(dataToEncode, addCheckDigit))
    ensures encoded == "" <==> Encode(dataToEncode, addCheckDigit).None?
  {
    var data := NormalizeInput(dataToEncode);
    NormalizeShape(dataToEncode);
    var valid, checkDigit, encode := ScanData(data);
    if !valid {
      return "";
    }
    checkDigit := checkDigit % 43;
    CheckStep(data, addCheckDigit);
    if addCheckDigit {
      encode := encode + Patterns[checkDigit];
    }
    ghost var groups := Groups(data, addCheckDigit);
    assert encode == Concat(groups);
    encode := Guard + encode + Guard;
    assert encode == Framed(groups);
    encoded := ExpandUnits(encode);
    FramedUnits(groups);
  }

  /** The pass over the normalised data: it stops at the first character
      outside the class of the validation regular expression and reports
      failure; otherwise it sums the indices of the characters and appends
      their patterns, in order. */
  method ScanData(data: string) returns (valid: bool, checkSum: nat, encode: string)
    requires forall i :: 0 <= i < |data| ==> !IsLower(data[i])
    ensures valid <==> AllCode39(data)
    ensures valid ==> checkSum == SumIndices(data) && encode == Concat(DataPatterns(data))
  {
    checkSum, encode := 0, "";
    var i := 0;
    while i < |data|
      invariant 0 <= i <= |data|
      invariant AllCode39(data[..i])
      invariant checkSum == SumIndices(data[..i])
      invariant encode == Concat(DataPatterns(data[..i]))
    {
      var ch := data[i];
      if !MatchesAllowed(ch) {
        assert !IsCode39Char(data[i]);
        return false, 0, "";
      }
      var charIndex := CharIndex(ch);
      PrefixStep(data, i);
      checkSum := checkSum + charIndex;
      encode := encode + Patterns[charIndex];
      i := i + 1;
    }
    assert data[..i] == data;
    valid := true;
  }

  /** One more data character: still encodable, its index added to the sum
      and its pattern appended to the bits. */
  lemma {:induction false} PrefixStep(data: string, i: nat)
    requires i < |data| && AllCode39(data[..i]) && IsCode39Char(data[i])
    ensures AllCode39(data[..i + 1])
    ensures SumIndices(data[..i + 1]) == SumIndices(data[..i]) + CharIndex(data[i])
    ensures Concat(DataPatterns(data[..i + 1])) == Concat(DataPatterns(data[..i])) + Pattern(CharIndex(data[i]))
  {
    var s := data[..i + 1];
    assert s[..i] == data[..i] && s[i] == data[i];
    DataPatternsSnoc(s);
    ConcatSnoc(DataPatterns(s[..i]), Pattern(CharIndex(s[i])));
  }

  /** The patterns of a text are those of all but its last character, then
      the pattern of the last one. */
  lemma {:induction false} DataPatternsSnoc(s: string)
    requires |s| > 0 && AllCode39(s)
    ensures AllCode39(s[..|s| - 1])
    ensures DataPatterns(s) == DataPatterns(s[..|s| - 1]) + [Pattern(CharIndex(s[|s| - 1]))]
  {
  }

  /** The optional check-digit group is appended after the data groups. */
  lemma {:induction false} CheckStep(data: string, addCheckDigit: bool)
    requires AllCode39(data)
    ensures Concat(Groups(data, addCheckDigit)) ==
            Concat(DataPatterns(data)) + (if addCheckDigit then Pattern(CheckDigit(data)) else "")
  {
    var gs := DataPatterns(data);
    if addCheckDigit {
      ConcatSnoc(gs, Pattern(CheckDigit(data)));
    } else {
      assert Groups(data, addCheckDigit) == gs;
      assert Concat(gs) + "" == Concat(gs);
    }
  }

  /** The groups between the guards are the data patterns in input order,
      then the check-digit pattern when requested. */
  lemma {:induction false} GroupsLayout(s: string, addCheckDigit: bool)
    requires AllCode39(s)
    ensures forall k :: 0 <= k < |s| ==> Groups(s, addCheckDigit)[k] == Pattern(CharIndex(s[k]))
    ensures addCheckDigit ==> Groups(s, addCheckDigit)[|s|] == Pattern(CheckDigit(s))
  {
  }

  /** The bits before expansion: 9(N + 2) of them, or 9(N + 3) with the
      check digit; the guard first and last; data character k in group
      k + 1; the check-digit pattern in group N + 1 when requested. */
  lemma {:induction false} BitsLayout(s: string, addCheckDigit: bool)
    requires AllCode39(s)
    ensures var bits := Framed(Groups(s, addCheckDigit));
      && |bits| == 9 * (|s| + if addCheckDigit then 3 else 2)
      && bits[..9] == Guard
      && (forall k :: 0 <= k < |s| ==> bits[9 * (k + 1)..9 * (k + 2)] == Pattern(CharIndex(s[k])))
      && (addCheckDigit ==> bits[9 * (|s| + 1)..9 * (|s| + 2)] == Pattern(CheckDigit(s)))
      && bits[|bits| - 9..] == Guard
  {
    FramedLayout(Groups(s, addCheckDigit));
    GroupsLayout(s, addCheckDigit);
  }

  /** A successful encoding has 16 units per group, 16(N + 2) or 16(N + 3)
      in all, and begins and ends with the guard units 1000101110111010; so
      it is never the empty string the encoder uses for failure. */
  lemma {:induction false} EncodeFraming(input: string, addCheckDigit: bool)
    requires Encode(input, addCheckDigit).Some?
    ensures var data := Normalize(input);
      var units := Encode(input, addCheckDigit).value;
      && |units| == 16 * (|data| + if addCheckDigit then 3 else 2)
      && units[..16] == GuardUnits
      && units[|units| - 16..] == GuardUnits
  {
    FramedUnits(Groups(Normalize(input), addCheckDigit));
  }

  /** In a successful encoding, units 16(k+1)..16(k+2) draw data character
      k and, when requested, units 16(N+1)..16(N+2) the check digit. */
  lemma {:induction false} EncodeUnitGroups(input: string, addCheckDigit: bool)
    requires Encode(input, addCheckDigit).Some?
    ensures var data := Normalize(input);
      var units := Encode(input, addCheckDigit).value;
      && |units| == 16 * (|data| + if addCheckDigit then 3 else 2)
      && (forall k :: 0 <= k < |data| ==>
            units[16 * (k + 1)..16 * (k + 2)] == ExpandGroup(Pattern(CharIndex(data[k]))))
      && (addCheckDigit ==>
            units[16 * (|data| + 1)..16 * (|data| + 2)] == ExpandGroup(Pattern(CheckDigit(data))))
  {
    var data := Normalize(input);
    FramedUnitGroups(Groups(data, addCheckDigit));
    GroupsLayout(data, addCheckDigit);
  }

  /** Validation, as the encoder performs it: the encoding fails exactly
      when some normalised character is outside the class of the
      validation regular expression. */
  lemma {:induction false} EncodeFailsOnDisallowed(input: string, addCheckDigit: bool)
    ensures Encode(input, addCheckDigit).None? <==>
      exists i :: 0 <= i < |Normalize(input)| && !MatchesAllowed(Normalize(input)[i])
  {
    NormalizeShape(input);
  }

  /** A raw input character that the encoder accepts: a space or an
      asterisk, which normalisation replaces or removes, or a character of
      the validation class. */
  predicate Accepted(c: char)
  {
    c == ' ' || c == '*' || MatchesAllowed(c)
  }

  /** A kept input character normalises to an encodable symbol exactly when
      it is accepted. */
  lemma {:induction false} NormalizeCharValid(c: char)
    requires c != '*'
    ensures IsCode39Char(NormalizeChar(c)) <==> Accepted(c)
  {
  }

  lemma {:induction false} AllCode39Append(a: string, b: string)
    ensures AllCode39(a + b) <==> AllCode39(a) && AllCode39(b)
  {
    if AllCode39(a) && AllCode39(b) {
      forall i | 0 <= i < |a + b| ensures IsCode39Char((a + b)[i]) {
        if i >= |a| { assert (a + b)[i] == b[i - |a|]; }
      }
    }
    if AllCode39(a + b) {
      forall i | 0 <= i < |b| ensures IsCode39Char(b[i]) {
        assert (a + b)[|a| + i] == b[i];
      }
      forall i | 0 <= i < |a| ensures IsCode39Char(a[i]) {
        assert (a + b)[i] == a[i];
      }
    }
  }

  lemma {:induction false} AllCode39ByChar(s: string)
    ensures AllCode39(NormalizeByChar(s)) <==> forall i :: 0 <= i < |s| ==> Accepted(s[i])
    decreases |s|
  {
    if |s| > 0 {
      AllCode39ByChar(s[1..]);
      var rest := NormalizeByChar(s[1..]);
      var head: string := if s[0] == '*' then [] else [NormalizeChar(s[0])];
      assert NormalizeByChar(s) == head + rest;
      if s[0] != '*' {
        NormalizeCharValid(s[0]);
      }
      AllCode39Append(head, rest);
      assert (forall i :: 0 <= i < |s| ==> Accepted(s[i])) <==>
             Accepted(s[0]) && forall i :: 0 <= i < |s[1..]| ==> Accepted(s[1..][i]) by {
        assert forall i :: 1 <= i < |s| ==> s[i] == s[1..][i - 1];
      }
    }
  }

  /** Validation in terms of the raw input: the encoding fails exactly when
      the input holds a character that is neither a space, an asterisk nor
      in the validation class. Nothing is produced in that case. */
  lemma {:induction false} EncodeFailsOnRawInput(input: string, addCheckDigit: bool)
    ensures Encode(input, addCheckDigit).None? <==> exists i :: 0 <= i < |input| && !Accepted(input[i])
  {
    NormalizePerCharacter(input);
    AllCode39ByChar(input);
  }

  /** The encoding depends on the input only through its normalised form. */
  lemma {:induction false} EncodeNormalized(input: string, addCheckDigit: bool)
    ensures Encode(Normalize(input), addCheckDigit) == Encode(input, addCheckDigit)
  {
    NormalizeIdempotent(input);
  }

}
