/** `toKebabCase` of `src/utils/index.ts`: a global replace of the pattern
    `[A-Z]+(?![a-z])|[A-Z]` by the lower-cased match, preceded by `-` unless
    the match starts at offset 0. The scan is modelled as the regular
    expression engine runs it, and is proved equal to a per-character
    reference definition. */
module KebabCase {
  import opened Chars

  /** The number of consecutive capitals starting at `p`. */
  function RunLength(s: string, p: nat): (n: nat)
    requires p <= |s|
    ensures p + n <= |s|
    decreases |s| - p
  {
    if p < |s| && IsUpper(s[p]) then 1 + RunLength(s, p + 1) else 0
  }

  /** The run is made of capitals and cannot be extended. */
  lemma {:induction false} RunLengthIsMaximal(s: string, p: nat)
    requires p <= |s|
    ensures forall i :: p <= i < p + RunLength(s, p) ==> IsUpper(s[i])
    ensures p + RunLength(s, p) == |s| || !IsUpper(s[p + RunLength(s, p)])
    decreases |s| - p
  {
    if p < |s| && IsUpper(s[p]) {
      RunLengthIsMaximal(s, p + 1);
    }
  }

  /** The length of the match at a capital. `[A-Z]+` takes the whole run and
      gives back its last capital when the run goes on with a lower-case
      letter; a single capital followed by a lower-case letter is matched by
      the second alternative. */
  function MatchLength(s: string, p: nat): (m: nat)
    requires p < |s| && IsUpper(s[p])
    ensures 1 <= m <= RunLength(s, p)
    ensures m == RunLength(s, p) || m == RunLength(s, p) - 1
    ensures m < RunLength(s, p) <==> RunLength(s, p) > 1 && p + RunLength(s, p) < |s| && IsLower(s[p + RunLength(s, p)])
  {
    var n := RunLength(s, p);
    if n > 1 && p + n < |s| && IsLower(s[p + n]) then n - 1 else n
  }

  /** `s.substring(i, j).toLowerCase()` on ASCII. */
  function LowerSlice(s: string, i: nat, j: nat): (r: string)
    requires i <= j <= |s|
    ensures |r| == j - i
    ensures forall k :: 0 <= k < |r| ==> r[k] == ToLower(s[i + k])
    decreases j - i
  {
    if i == j then "" else [ToLower(s[i])] + LowerSlice(s, i + 1, j)
  }

  /** The replacer callback on the match at offset `p`: the match lower-cased,
      after a `-` unless the offset is 0. */
  function Replacement(s: string, p: nat): string
    requires p < |s| && IsUpper(s[p])
  {
    (if p > 0 then "-" else "") + LowerSlice(s, p, p + MatchLength(s, p))
  }

  /** The replaced text from offset `p` on, match by match. */
  function KebabFrom(s: string, p: nat): string
    requires p <= |s|
    decreases |s| - p
  {
    if p == |s| then ""
    else if !IsUpper(s[p]) then [s[p]] + KebabFrom(s, p + 1)
    else Replacement(s, p) + KebabFrom(s, p + MatchLength(s, p))
  }

  /** toKebabCase */
  function ToKebabCase(s: string): string {
    KebabFrom(s, 0)
  }

  // ---------------------------------------------------------------------
  // Reference definition, one character at a time
  // ---------------------------------------------------------------------

  /** A match starts at `i` exactly when `s[i]` is a capital that opens a
      run, or is the last capital of a run going on in lower case. */
  predicate StartsMatch(s: string, i: nat)
    requires i < |s|
  {
    IsUpper(s[i]) && (i == 0 || !IsUpper(s[i - 1]) || (i + 1 < |s| && IsLower(s[i + 1])))
  }

  /** What character `i` turns into: itself lower-cased, after a `-` when a
      match starts there at a non-zero offset. */
  function Piece(s: string, i: nat): string
    requires i < |s|
  {
    (if i > 0 && StartsMatch(s, i) then "-" else "") + [ToLower(s[i])]
  }

  function SpecFrom(s: string, p: nat): string
    requires p <= |s|
    decreases |s| - p
  {
    if p == |s| then "" else Piece(s, p) + SpecFrom(s, p + 1)
  }

  // ---------------------------------------------------------------------
  // The scan computes the reference definition
  // ---------------------------------------------------------------------

  /** The scan only ever stops at a capital where a match starts. */
  predicate ScanPoint(s: string, p: nat)
    requires p <= |s|
  {
    p == |s| || !IsUpper(s[p]) || StartsMatch(s, p)
  }

  /** Across capitals where no match starts, the reference definition only
      lowers them. */
  lemma {:induction false} SpecInsideMatch(s: string, j: nat, e: nat)
    requires 0 < j <= e <= |s|
    requires forall i :: j <= i < e ==> IsUpper(s[i]) && !StartsMatch(s, i)
    ensures SpecFrom(s, j) == LowerSlice(s, j, e) + SpecFrom(s, e)
    decreases e - j
  {
    if j < e {
      SpecInsideMatch(s, j + 1, e);
    }
  }

  /** Inside one match no other match starts, and the scan resumes at a
      point where one may. */
  lemma MatchInterior(s: string, p: nat)
    requires p < |s| && IsUpper(s[p])
    ensures p + MatchLength(s, p) <= |s|
    ensures forall i :: p < i < p + MatchLength(s, p) ==> IsUpper(s[i]) && !StartsMatch(s, i)
    ensures ScanPoint(s, p + MatchLength(s, p))
  {
    var n := RunLength(s, p);
    var m := MatchLength(s, p);
    RunLengthIsMaximal(s, p);
    forall i | p < i < p + m
      ensures IsUpper(s[i]) && !StartsMatch(s, i)
    {
      assert IsUpper(s[i - 1]);
      if i + 1 < p + m {
        assert IsUpper(s[i + 1]);
      }
    }
  }

  /** What the reference definition gives for the characters one match
      covers. */
  lemma SpecOverMatch(s: string, p: nat)
    requires p < |s| && IsUpper(s[p])
    ensures p + MatchLength(s, p) <= |s|
    ensures SpecFrom(s, p)
            == Piece(s, p) + (LowerSlice(s, p + 1, p + MatchLength(s, p)) + SpecFrom(s, p + MatchLength(s, p)))
  {
    MatchInterior(s, p);
    SpecInsideMatch(s, p + 1, p + MatchLength(s, p));
  }

  /** Regrouping a concatenation, proved on its own so that the steps that
      use it do not have to. */
  lemma Associative<T>(a: seq<T>, b: seq<T>, c: seq<T>)
    ensures (a + b) + c == a + (b + c)
  {
  }

  /** The replacement of a match is the reference definition's text for its
      first character followed by the rest of the match lowered. */
  lemma ReplacementPieces(s: string, p: nat)
    requires p < |s| && StartsMatch(s, p)
    ensures Replacement(s, p) == Piece(s, p) + LowerSlice(s, p + 1, p + MatchLength(s, p))
  {
    var dash := if p > 0 then "-" else "";
    var m := MatchLength(s, p);
    var l := LowerSlice(s, p + 1, p + m);
    calc {
      Replacement(s, p);
      dash + LowerSlice(s, p, p + m);
      dash + ([ToLower(s[p])] + l);
      { Associative(dash, [ToLower(s[p])], l); }
      (dash + [ToLower(s[p])]) + l;
      Piece(s, p) + l;
    }
  }

  /** A character outside `[A-Z]` is copied by the scan and by the
      reference definition alike. */
  lemma CopyStep(s: string, p: nat)
    requires p < |s| && !IsUpper(s[p])
    requires KebabFrom(s, p + 1) == SpecFrom(s, p + 1)
    ensures KebabFrom(s, p) == SpecFrom(s, p)
  {
    assert Piece(s, p) == [s[p]];
  }

  /** A match is replaced by what the reference definition gives for the
      characters it covers. */
  lemma MatchStep(s: string, p: nat)
    requires p < |s| && StartsMatch(s, p)
    requires p + MatchLength(s, p) <= |s|
    requires KebabFrom(s, p + MatchLength(s, p)) == SpecFrom(s, p + MatchLength(s, p))
    ensures KebabFrom(s, p) == SpecFrom(s, p)
  {
    var m := MatchLength(s, p);
    var l := LowerSlice(s, p + 1, p + m);
    calc {
      KebabFrom(s, p);
      Replacement(s, p) + KebabFrom(s, p + m);
      { ReplacementPieces(s, p); }
      (Piece(s, p) + l) + KebabFrom(s, p + m);
      (Piece(s, p) + l) + SpecFrom(s, p + m);
      { Associative(Piece(s, p), l, SpecFrom(s, p + m)); }
      Piece(s, p) + (l + SpecFrom(s, p + m));
      { SpecOverMatch(s, p); }
      SpecFrom(s, p);
    }
  }

  /** The scan from any point where it may stop agrees with the reference
      definition. */
  lemma {:induction false} KebabFromSpec(s: string, p: nat)
    requires p <= |s| && ScanPoint(s, p)
    ensures KebabFrom(s, p) == SpecFrom(s, p)
    decreases |s| - p
  {
    if p == |s| {
    } else if !IsUpper(s[p]) {
      KebabFromSpec(s, p + 1);
      CopyStep(s, p);
    } else {
      MatchInterior(s, p);
      KebabFromSpec(s, p + MatchLength(s, p));
      MatchStep(s, p);
    }
  }

  /** `toKebabCase` is the reference definition. */
  lemma KebabCaseSpec(s: string)
    ensures ToKebabCase(s) == SpecFrom(s, 0)
  {
    KebabFromSpec(s, 0);
  }

  // ---------------------------------------------------------------------
  // Properties
  // ---------------------------------------------------------------------

  predicate NoUpper(t: string) {
    forall i :: 0 <= i < |t| ==> !IsUpper(t[i])
  }

  lemma {:induction false} SpecNoUpper(s: string, p: nat)
    requires p <= |s|
    ensures NoUpper(SpecFrom(s, p))
    decreases |s| - p
  {
    if p < |s| {
      SpecNoUpper(s, p + 1);
    }
  }

  /** The output holds no capital. */
  lemma KebabNoUpper(s: string)
    ensures NoUpper(ToKebabCase(s))
  {
    KebabCaseSpec(s);
    SpecNoUpper(s, 0);
  }

  lemma {:induction false} SpecUnchanged(s: string, p: nat)
    requires p <= |s| && NoUpper(s)
    ensures SpecFrom(s, p) == s[p..]
    decreases |s| - p
  {
    if p < |s| {
      SpecUnchanged(s, p + 1);
      assert s[p..] == [s[p]] + s[p + 1..];
    }
  }

  /** A string is its own kebab case exactly when it holds no capital. */
  lemma KebabUnchanged(s: string)
    ensures ToKebabCase(s) == s <==> NoUpper(s)
  {
    KebabCaseSpec(s);
    KebabNoUpper(s);
    if NoUpper(s) {
      SpecUnchanged(s, 0);
    }
  }

  /** toKebabCase is idempotent. */
  lemma KebabIdempotent(s: string)
    ensures ToKebabCase(ToKebabCase(s)) == ToKebabCase(s)
  {
    KebabNoUpper(s);
    KebabUnchanged(ToKebabCase(s));
  }

  /** `t` with every `-` taken out. */
  function RemoveDashes(t: string): (r: string)
    ensures |r| <= |t|
    ensures forall i :: 0 <= i < |r| ==> r[i] != '-'
    ensures |t| == 1 ==> r == (if t[0] == '-' then "" else t)
  {
    if t == [] then "" else (if t[0] == '-' then "" else [t[0]]) + RemoveDashes(t[1..])
  }

  lemma {:induction false} RemoveDashesAppend(a: string, b: string)
    ensures RemoveDashes(a + b) == RemoveDashes(a) + RemoveDashes(b)
    decreases |a|
  {
    if a != [] {
      RemoveDashesAppend(a[1..], b);
      assert (a + b)[1..] == a[1..] + b;
    } else {
      assert a + b == b;
    }
  }

  lemma {:induction false} SpecKeepsCharacters(s: string, p: nat)
    requires p <= |s|
    ensures RemoveDashes(SpecFrom(s, p)) == RemoveDashes(LowerSlice(s, p, |s|))
    decreases |s| - p
  {
    if p < |s| {
      SpecKeepsCharacters(s, p + 1);
      RemoveDashesAppend(Piece(s, p), SpecFrom(s, p + 1));
      RemoveDashesAppend([ToLower(s[p])], LowerSlice(s, p + 1, |s|));
      if p > 0 && StartsMatch(s, p) {
        RemoveDashesAppend("-", [ToLower(s[p])]);
      }
    }
  }

  /** Only dashes are inserted: taking every `-` out of the output gives the
      lower-cased input with its own dashes taken out, so every character
      is kept, in order. */
  lemma KebabKeepsCharacters(s: string)
    ensures RemoveDashes(ToKebabCase(s)) == RemoveDashes(LowerSlice(s, 0, |s|))
  {
    KebabCaseSpec(s);
    SpecKeepsCharacters(s, 0);
  }

  /** A capital run followed by a capitalised word: "XMLHttp" becomes
      "xml-http". */
  lemma KebabAcronym()
    ensures ToKebabCase("XMLHttp") == "xml-http"
  {
    var s := "XMLHttp";
    assert RunLength(s, 0) == 4;
    assert MatchLength(s, 0) == 3;
    assert RunLength(s, 3) == 1;
    assert MatchLength(s, 3) == 1;
    assert Replacement(s, 0) == "xml";
    assert Replacement(s, 3) == "-h";
    assert KebabFrom(s, 4) == "ttp";
  }
}
