/** `strip` and `lower` on ASCII text; other characters are left as they are. */
module AsciiText {

  function Lower(s: string): string {
    seq(|s|, i requires 0 <= i < |s| => LowerChar(s[i]))
  }

  function LowerChar(c: char): char {
    if 'A' <= c <= 'Z' then c - 'A' + 'a' else c
  }

  /** Tab to carriage return, the four separators, and the space. */
  predicate IsBlank(c: char) {
    9 <= c as int <= 13 || 28 <= c as int <= 32
  }

  function StripBlanks(s: string): string
    decreases |s|
  {
    if s != [] && IsBlank(s[0]) then StripBlanks(s[1..])
    else if s != [] && IsBlank(s[|s| - 1]) then StripBlanks(s[..|s| - 1])
    else s
  }

  function AsciiNormalize(s: string): string {
    Lower(StripBlanks(s))
  }

  // ---- what they mean ----

  ghost predicate AllBlank(s: string) {
    forall i :: 0 <= i < |s| ==> 9 <= s[i] as int <= 13 || 28 <= s[i] as int <= 32
  }

  /** `s` is `core` between blanks, and `core` neither begins nor ends with a blank. */
  ghost predicate Spells(s: string, left: string, core: string, right: string) {
    && s == left + core + right && AllBlank(left) && AllBlank(right)
    && (core != [] ==> !AllBlank([core[0]]) && !AllBlank([core[|core| - 1]]))
  }

  /** The same character, or the two cases of one ASCII letter. */
  predicate SameLetter(c: char, d: char) {
    || c == d
    || (65 <= c as int <= 90 && d as int == c as int + 32)
    || (65 <= d as int <= 90 && c as int == d as int + 32)
  }

  predicate SameLetters(a: string, b: string) {
    |a| == |b| && forall i :: 0 <= i < |a| ==> SameLetter(a[i], b[i])
  }

  lemma PeelLeft(s: string, left: string, core: string, right: string)
    requires Spells(s, left, core, right) && left != []
    ensures s != [] && IsBlank(s[0]) && Spells(s[1..], left[1..], core, right)
  {
    assert s[0] == left[0];
    assert s[1..] == left[1..] + core + right;
  }

  lemma PeelRight(s: string, core: string, right: string)
    requires Spells(s, [], core, right) && right != []
    ensures s != [] && IsBlank(s[|s| - 1]) && Spells(s[..|s| - 1], [], core, right[..|right| - 1])
    ensures IsBlank(s[0]) ==> core == [] && Spells(s, right, [], [])
  {
    var n := |right| - 1;
    assert s == core + right && s[|s| - 1] == right[n];
    assert s[..|s| - 1] == core + right[..n];
    if core != [] {
      assert s[0] == core[0] == [core[0]][0];
    }
  }

  lemma NothingToPeel(s: string, core: string)
    requires Spells(s, [], core, [])
    ensures s == core && (s != [] ==> !IsBlank(s[0]) && !IsBlank(s[|s| - 1]))
  {
    assert s == core;
    if core != [] {
      assert core[0] == [core[0]][0] && core[|core| - 1] == [core[|core| - 1]][0];
    }
  }

  /** Stripping finds the core of every spelling. */
  lemma {:induction false} StripFindsCore(s: string, left: string, core: string, right: string)
    requires Spells(s, left, core, right)
    ensures StripBlanks(s) == core
    decreases |s|
  {
    if left != [] {
      PeelLeft(s, left, core, right);
      StripFindsCore(s[1..], left[1..], core, right);
    } else if right != [] {
      PeelRight(s, core, right);
      if IsBlank(s[0]) {
        PeelLeft(s, right, [], []);
        StripFindsCore(s[1..], right[1..], [], []);
      } else {
        StripFindsCore(s[..|s| - 1], [], core, right[..|right| - 1]);
      }
    } else {
      NothingToPeel(s, core);
    }
  }

  lemma GrowLeft(s: string, left: string, core: string, right: string)
    requires s != [] && IsBlank(s[0]) && Spells(s[1..], left, core, right)
    ensures Spells(s, [s[0]] + left, core, right)
  {
    assert s == [s[0]] + s[1..];
    assert [s[0]] + (left + core + right) == ([s[0]] + left) + core + right;
  }

  lemma GrowRight(s: string, left: string, core: string, right: string)
    requires s != [] && IsBlank(s[|s| - 1]) && Spells(s[..|s| - 1], left, core, right)
    ensures Spells(s, left, core, right + [s[|s| - 1]])
  {
    var last := s[|s| - 1];
    assert s == s[..|s| - 1] + [last];
    assert (left + core + right) + [last] == left + core + (right + [last]);
  }

  lemma NothingToStrip(s: string)
    requires s != [] ==> !IsBlank(s[0]) && !IsBlank(s[|s| - 1])
    ensures Spells(s, [], s, [])
  {
    assert s == [] + s + [];
    if s != [] {
      assert !AllBlank([s[0]]) by {
        assert [s[0]][0] == s[0];
      }
      assert !AllBlank([s[|s| - 1]]) by {
        assert [s[|s| - 1]][0] == s[|s| - 1];
      }
    }
  }

  /** Every text is a core between blanks. */
  lemma {:induction false} StripSplits(s: string) returns (left: string, right: string)
    ensures Spells(s, left, StripBlanks(s), right)
    decreases |s|
  {
    if s != [] && IsBlank(s[0]) {
      left, right := StripSplits(s[1..]);
      GrowLeft(s, left, StripBlanks(s), right);
      left := [s[0]] + left;
    } else if s != [] && IsBlank(s[|s| - 1]) {
      left, right := StripSplits(s[..|s| - 1]);
      GrowRight(s, left, StripBlanks(s), right);
      right := right + [s[|s| - 1]];
    } else {
      NothingToStrip(s);
      left, right := [], [];
    }
  }

  lemma LowerCharIff(c: char, d: char)
    ensures LowerChar(c) == LowerChar(d) <==> SameLetter(c, d)
  {
  }

  /** Lower-casing identifies exactly the texts that agree up to the case of ASCII letters, and keeps lower-case ones. */
  lemma LowerIff(a: string, b: string)
    ensures Lower(a) == Lower(b) <==> SameLetters(a, b)
    ensures (forall i :: 0 <= i < |a| ==> !(65 <= a[i] as int <= 90)) ==> Lower(a) == a
  {
    if Lower(a) == Lower(b) {
      assert |Lower(a)| == |a| && |Lower(b)| == |b|;
      forall i | 0 <= i < |a| ensures SameLetter(a[i], b[i]) {
        assert Lower(a)[i] == LowerChar(a[i]) && Lower(b)[i] == LowerChar(b[i]);
        LowerCharIff(a[i], b[i]);
      }
    }
    if SameLetters(a, b) {
      forall i | 0 <= i < |a| ensures Lower(a)[i] == Lower(b)[i] {
        assert SameLetter(a[i], b[i]);
        LowerCharIff(a[i], b[i]);
      }
    }
  }

  ghost predicate HasCapital(s: string) {
    exists i :: 0 <= i < |s| && 65 <= s[i] as int <= 90
  }

  /** A text lower-cases to exactly the capital-free text that agrees with it up to case. */
  lemma LowerIs(a: string, b: string)
    ensures Lower(a) == b <==> SameLetters(a, b) && !HasCapital(b)
  {
    LowerIff(a, b);
    LowerIff(b, b);
    if Lower(a) == b {
      assert |a| == |b|;
      forall i | 0 <= i < |b| ensures SameLetter(a[i], b[i]) && !(65 <= b[i] as int <= 90) {
        assert b[i] == Lower(a)[i] == LowerChar(a[i]);
      }
    }
  }

  /** Two texts with one core, up to the case of ASCII letters. */
  ghost predicate SameCore(a: string, b: string) {
    exists la, ca, ra, lb, cb, rb :: Spells(a, la, ca, ra) && Spells(b, lb, cb, rb) && SameLetters(ca, cb)
  }

  /** Normalising identifies exactly these. */
  lemma NormalizeIff(a: string, b: string)
    ensures AsciiNormalize(a) == AsciiNormalize(b) <==> SameCore(a, b)
  {
    var la, ra := StripSplits(a);
    var lb, rb := StripSplits(b);
    LowerIff(StripBlanks(a), StripBlanks(b));
    if SameCore(a, b) {
      var la', ca, ra', lb', cb, rb' :| Spells(a, la', ca, ra') && Spells(b, lb', cb, rb') && SameLetters(ca, cb);
      StripFindsCore(a, la', ca, ra');
      StripFindsCore(b, lb', cb, rb');
    }
  }
}
