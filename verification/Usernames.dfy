/**
 Choosing a local account name for a media-server user.

 Which characters beyond ASCII count as alphanumeric, and how names are normalised, are parameters;
 `AsciiNormalize` is the normaliser on ASCII text.
 */
module Usernames {
  import opened AsciiText

  const MIN_LENGTH: nat := 5
  const MAX_LENGTH: nat := 32

  predicate IsAsciiAlnum(c: char) {
    'a' <= c <= 'z' || 'A' <= c <= 'Z' || '0' <= c <= '9'
  }

  /** The characters the account validator lets through. */
  predicate IsNameChar(c: char) {
    IsAsciiAlnum(c) || c == '_' || c == '-'
  }

  predicate AllNameChars(s: string) {
    forall i :: 0 <= i < |s| ==> IsNameChar(s[i])
  }

  predicate ValidUsername(s: string) {
    MIN_LENGTH <= |s| <= MAX_LENGTH && AllNameChars(s)
  }

  function Cleaned(s: string, alnum: char -> bool): (r: string)
    ensures |r| == |s|
    ensures forall i :: 0 <= i < |s| ==>
      r[i] == if alnum(s[i]) || s[i] == '_' || s[i] == '-' then s[i] else '_'
  {
    seq(|s|, i requires 0 <= i < |s| => if alnum(s[i]) || s[i] == '_' || s[i] == '-' then s[i] else '_')
  }

  /** `strip("_-")` */
  function Stripped(s: string): (r: string)
    ensures forall c :: c in r ==> c in s
    decreases |s|
  {
    if s != [] && (s[0] == '_' || s[0] == '-') then Stripped(s[1..])
    else if s != [] && (s[|s| - 1] == '_' || s[|s| - 1] == '-') then Stripped(s[..|s| - 1])
    else s
  }

  /** Python's `s[:k]`: a negative `k` counts from the end. */
  function Slice(s: string, k: int): string {
    if k >= |s| then s else if k >= 0 then s[..k] else if |s| + k >= 0 then s[..|s| + k] else []
  }

  function Sanitize(value: string, alnum: char -> bool): string {
    var stripped := Stripped(Cleaned(value, alnum));
    var cleaned := if stripped == [] then "media_user" else stripped;
    var long := if |cleaned| < MIN_LENGTH then cleaned + "_user" else cleaned;
    Slice(long, MAX_LENGTH)
  }

  function Digit(d: nat): char
    requires d < 10
  {
    '0' + d as char
  }

  function Digits(n: nat): string {
    if n < 10 then [Digit(n)] else Digits(n / 10) + [Digit(n % 10)]
  }

  function SuffixText(n: nat): string {
    "_" + Digits(n)
  }

  function Candidate(base: string, suffix: nat): string {
    Slice(base, MAX_LENGTH - |SuffixText(suffix)|) + SuffixText(suffix)
  }

  ghost predicate EndsWith(s: string, tail: string) {
    |tail| <= |s| && s[|s| - |tail|..] == tail
  }

  /** A normaliser that leaves a numeric suffix alone, as stripping and lower-casing do. */
  ghost predicate KeepsSuffix(norm: string -> string) {
    forall x: string, n: nat :: EndsWith(norm(x + SuffixText(n)), SuffixText(n))
  }

  // ---- distinct suffixes give distinct names ----

  lemma {:induction false} DigitsShape(n: nat)
    ensures Digits(n) != []
    ensures forall i :: 0 <= i < |Digits(n)| ==> '0' <= Digits(n)[i] <= '9'
  {
    if n >= 10 {
      DigitsShape(n / 10);
    }
  }

  lemma {:induction false} DigitsInjective(a: nat, b: nat)
    requires Digits(a) == Digits(b)
    ensures a == b
  {
    DigitsShape(a / 10);
    DigitsShape(b / 10);
    DigitsParts(a);
    DigitsParts(b);
    if a >= 10 && b >= 10 {
      DigitsInjective(a / 10, b / 10);
    }
  }

  /** Numbers below ten have one digit; others split into the tens and the last digit. */
  lemma DigitsParts(n: nat)
    ensures Digits(n) != [] && Digits(n)[|Digits(n)| - 1] == Digit(n % 10)
    ensures n >= 10 ==> Digits(n)[..|Digits(n)| - 1] == Digits(n / 10) && |Digits(n)| > 1
    ensures n < 10 ==> |Digits(n)| == 1
  {
    DigitsShape(n / 10);
  }

  lemma LastUnderscore(s: string, n: nat)
    requires EndsWith(s, SuffixText(n))
    ensures var p := |s| - |SuffixText(n)|; s[p] == '_' && forall i :: p < i < |s| ==> s[i] != '_'
  {
    DigitsShape(n);
    var p := |s| - |SuffixText(n)|;
    assert forall i :: p <= i < |s| ==> s[i] == SuffixText(n)[i - p];
  }

  /** The text behind the last underscore determines the suffix. */
  lemma SuffixIsReadable(s: string, a: nat, b: nat)
    requires EndsWith(s, SuffixText(a)) && EndsWith(s, SuffixText(b))
    ensures a == b
  {
    LastUnderscore(s, a);
    LastUnderscore(s, b);
    assert SuffixText(a)[1..] == Digits(a) && SuffixText(b)[1..] == Digits(b);
    DigitsInjective(a, b);
  }

  /** Candidates stay different after truncation and normalisation. */
  lemma CandidatesDiffer(base: string, norm: string -> string, a: nat, b: nat)
    requires KeepsSuffix(norm) && norm(Candidate(base, a)) == norm(Candidate(base, b))
    ensures a == b
  {
    var s := norm(Candidate(base, a));
    assert EndsWith(s, SuffixText(a));
    assert EndsWith(s, SuffixText(b));
    SuffixIsReadable(s, a, b);
  }

  ghost predicate AllTaken(base: string, used: set<string>, norm: string -> string, upto: nat) {
    forall t: nat :: 1 <= t < upto ==> norm(Candidate(base, t)) in used
  }

  /** Pigeonhole: the used names can take at most that many candidates in a row. */
  lemma {:induction false} TakenAtMostUsed(base: string, used: set<string>, norm: string -> string, upto: nat)
    requires KeepsSuffix(norm) && AllTaken(base, used, norm, upto) && 1 <= upto
    ensures upto - 1 <= |used|
    decreases upto
  {
    if upto > 1 {
      var last := norm(Candidate(base, upto - 1));
      forall t: nat | 1 <= t < upto - 1 ensures norm(Candidate(base, t)) in used - {last} {
        if norm(Candidate(base, t)) == last {
          CandidatesDiffer(base, norm, t, upto - 1);
        }
      }
      TakenAtMostUsed(base, used - {last}, norm, upto - 1);
    }
  }

  // ---- the search ----

  /** The first free suffix from `suffix` on. */
  ghost function FirstFree(base: string, used: set<string>, norm: string -> string, suffix: nat): (s: nat)
    requires KeepsSuffix(norm) && 1 <= suffix && AllTaken(base, used, norm, suffix)
    ensures suffix <= s <= |used| + 1
    ensures norm(Candidate(base, s)) !in used && AllTaken(base, used, norm, s)
    decreases |used| + 1 - suffix
  {
    TakenAtMostUsed(base, used, norm, suffix);
    if norm(Candidate(base, suffix)) !in used then suffix
    else
      assert AllTaken(base, used, norm, suffix + 1);
      TakenAtMostUsed(base, used, norm, suffix + 1);
      FirstFree(base, used, norm, suffix + 1)
  }

  ghost function UniqueUsername(value: string, used: set<string>, alnum: char -> bool, norm: string -> string): (name: string)
    requires KeepsSuffix(norm)
    ensures norm(name) !in used
  {
    var base := Sanitize(value, alnum);
    if norm(base) !in used then base else Candidate(base, FirstFree(base, used, norm, 1))
  }

  /** Finding one candidate more taken leaves at most as many as there are used names. */
  lemma OneMoreTaken(base: string, used: set<string>, norm: string -> string, suffix: nat)
    requires KeepsSuffix(norm) && 1 <= suffix
    requires suffix > 1 ==> AllTaken(base, used, norm, suffix - 1) && norm(Candidate(base, suffix - 1)) in used
    ensures AllTaken(base, used, norm, suffix) && suffix - 1 <= |used|
  {
    forall t: nat | 1 <= t < suffix ensures norm(Candidate(base, t)) in used {
      if t == suffix - 1 {
      } else {
        assert AllTaken(base, used, norm, suffix - 1);
      }
    }
    TakenAtMostUsed(base, used, norm, suffix);
  }

  method SafeUniqueUsername(value: string, used: set<string>, alnum: char -> bool, norm: string -> string)
    returns (candidate: string)
    requires KeepsSuffix(norm)
    ensures candidate == UniqueUsername(value, used, alnum, norm)
  {
    var base := Sanitize(value, alnum);
    candidate := base;
    var suffix := 1;
    while norm(candidate) in used
      invariant 1 <= suffix
      invariant candidate == if suffix == 1 then base else Candidate(base, suffix - 1)
      invariant suffix > 1 ==> norm(base) in used && AllTaken(base, used, norm, suffix - 1)
      decreases |used| + 2 - suffix
    {
      OneMoreTaken(base, used, norm, suffix);
      candidate := Candidate(base, suffix);
      suffix := suffix + 1;
    }
    if suffix > 1 {
      FirstFreeIsFirst(base, used, norm, 1, suffix - 1);
    }
  }

  lemma {:induction false} FirstFreeIsFirst(base: string, used: set<string>, norm: string -> string, from: nat, s: nat)
    requires KeepsSuffix(norm) && 1 <= from <= s
    requires AllTaken(base, used, norm, s) && norm(Candidate(base, s)) !in used
    ensures FirstFree(base, used, norm, from) == s
    decreases s - from
  {
    TakenAtMostUsed(base, used, norm, from);
    if from < s {
      FirstFreeIsFirst(base, used, norm, from + 1, s);
    }
  }

  // ---- what comes out ----

  ghost predicate AllDashes(s: string) {
    forall i :: 0 <= i < |s| ==> s[i] == '_' || s[i] == '-'
  }

  /** `s` is `core` between "_" and "-", and `core` neither begins nor ends with one. */
  ghost predicate HasCore(s: string, left: string, core: string, right: string) {
    && s == left + core + right && AllDashes(left) && AllDashes(right)
    && (core != [] ==> !AllDashes([core[0]]) && !AllDashes([core[|core| - 1]]))
  }

  lemma DropLeft(s: string, left: string, core: string, right: string)
    requires HasCore(s, left, core, right) && left != []
    ensures s != [] && (s[0] == '_' || s[0] == '-') && HasCore(s[1..], left[1..], core, right)
  {
    assert s[0] == left[0];
    assert s[1..] == left[1..] + core + right;
  }

  lemma DropRight(s: string, core: string, right: string)
    requires HasCore(s, [], core, right) && right != []
    ensures s != [] && (s[|s| - 1] == '_' || s[|s| - 1] == '-') && HasCore(s[..|s| - 1], [], core, right[..|right| - 1])
    ensures s[0] == '_' || s[0] == '-' ==> core == [] && HasCore(s, right, [], [])
  {
    var n := |right| - 1;
    assert s == core + right && s[|s| - 1] == right[n];
    assert s[..|s| - 1] == core + right[..n];
    if core != [] {
      assert s[0] == core[0] == [core[0]][0];
    }
  }

  lemma {:induction false} StrippedFindsCore(s: string, left: string, core: string, right: string)
    requires HasCore(s, left, core, right)
    ensures Stripped(s) == core
    decreases |s|
  {
    if left != [] {
      DropLeft(s, left, core, right);
      StrippedFindsCore(s[1..], left[1..], core, right);
    } else if right != [] {
      DropRight(s, core, right);
      if s[0] == '_' || s[0] == '-' {
        DropLeft(s, right, [], []);
        StrippedFindsCore(s[1..], right[1..], [], []);
      } else {
        StrippedFindsCore(s[..|s| - 1], [], core, right[..|right| - 1]);
      }
    } else {
      assert s == core;
      if core != [] {
        assert core[0] == [core[0]][0] && core[|core| - 1] == [core[|core| - 1]][0];
      }
    }
  }

  /** Characters that are not kept become "_", which together with "-" is stripped at both ends; then gaps are filled and the rest cut. */
  lemma SanitizeMeans(value: string, alnum: char -> bool, cleaned: string, left: string, core: string, right: string)
    requires |cleaned| == |value|
    requires forall i :: 0 <= i < |value| ==>
      cleaned[i] == if alnum(value[i]) || value[i] == '_' || value[i] == '-' then value[i] else '_'
    requires HasCore(cleaned, left, core, right)
    ensures Sanitize(value, alnum) ==
      if |core| == 0 then "media_user"
      else if |core| < 5 then core + "_user"
      else if |core| > 32 then core[..32]
      else core
  {
    assert cleaned == Cleaned(value, alnum);
    StrippedFindsCore(cleaned, left, core, right);
  }

  lemma IsItsOwnCore(s: string)
    requires s != [] && IsAsciiAlnum(s[0]) && IsAsciiAlnum(s[|s| - 1])
    ensures HasCore(s, [], s, [])
  {
    assert s == [] + s + [];
    var first, last := s[0], s[|s| - 1];
    assert [first][0] == first && [last][0] == last;
  }

  /** A name the account validator accepts, with no "_" or "-" at its ends, is kept as it is when it is free. */
  lemma FreeValidNameIsKept(value: string, used: set<string>, alnum: char -> bool, norm: string -> string)
    requires KeepsSuffix(norm) && ValidUsername(value) && norm(value) !in used
    requires forall c :: IsAsciiAlnum(c) ==> alnum(c)
    requires IsAsciiAlnum(value[0]) && IsAsciiAlnum(value[|value| - 1])
    ensures UniqueUsername(value, used, alnum, norm) == value
  {
    IsItsOwnCore(value);
    forall i | 0 <= i < |value| ensures alnum(value[i]) || value[i] == '_' || value[i] == '-' {
      assert IsNameChar(value[i]);
    }
    SanitizeMeans(value, alnum, value, [], value, []);
  }

  /** A taken name gives way to the first free suffix: as much of it as leaves room, "_", and the number. */
  lemma TakenNameIsNumbered(value: string, used: set<string>, alnum: char -> bool, norm: string -> string)
    returns (kept: string, n: nat)
    requires KeepsSuffix(norm) && norm(Sanitize(value, alnum)) in used && |used| + 1 < Pow10(31)
    ensures |Digits(n)| <= 31
    ensures UniqueUsername(value, used, alnum, norm) == kept + "_" + Digits(n) && 1 <= n <= |used| + 1
    ensures var base := Sanitize(value, alnum);
      kept == if |base| + 1 + |Digits(n)| <= 32 then base else base[..31 - |Digits(n)|]
    ensures forall t: nat :: 1 <= t < n ==> norm(Candidate(Sanitize(value, alnum), t)) in used
  {
    var base := Sanitize(value, alnum);
    n := FirstFree(base, used, norm, 1);
    kept := KeptOf(base, n);
    SanitizeLength(value, alnum);
    DigitsLength(n, 31);
    assert kept + ("_" + Digits(n)) == kept + "_" + Digits(n);
  }

  /** The number a text of decimal digits stands for. */
  ghost function NumberOf(s: string): int {
    if s == [] then 0 else NumberOf(s[..|s| - 1]) * 10 + (s[|s| - 1] as int - 48)
  }

  /** A suffix is written in decimal, without leading zeros. */
  lemma {:induction false} DigitsSpellNumber(n: nat)
    ensures NumberOf(Digits(n)) == n
    ensures n > 0 ==> Digits(n) != [] && Digits(n)[0] as int != 48
  {
    if n >= 10 {
      DigitsSpellNumber(n / 10);
      DigitsParts(n);
      assert Digits(n)[0] == Digits(n / 10)[0];
    } else {
      assert Digits(n) == [Digit(n)] && Digits(n)[..0] == [];
    }
  }

  lemma SanitizeLength(value: string, alnum: char -> bool)
    ensures MIN_LENGTH <= |Sanitize(value, alnum)| <= MAX_LENGTH
  {
  }

  lemma SanitizeChars(value: string, alnum: char -> bool)
    requires forall c :: c in value && alnum(c) ==> IsNameChar(c)
    ensures forall i :: 0 <= i < |Sanitize(value, alnum)| ==> IsNameChar(Sanitize(value, alnum)[i])
  {
    var cleaned := Cleaned(value, alnum);
    forall c | c in cleaned ensures IsNameChar(c) {
      var i :| 0 <= i < |cleaned| && cleaned[i] == c;
      assert value[i] in value;
    }
    var stripped := Stripped(cleaned);
    assert forall i :: 0 <= i < |stripped| ==> stripped[i] in stripped;
  }

  function Pow10(k: nat): nat {
    if k == 0 then 1 else 10 * Pow10(k - 1)
  }

  lemma {:induction false} DigitsLength(n: nat, k: nat)
    requires 1 <= k && n < Pow10(k)
    ensures |Digits(n)| <= k
  {
    if n >= 10 {
      assert Pow10(1) == 10;
      DigitsLength(n / 10, k - 1);
    }
  }

  /** What a candidate keeps of its base. */
  function KeptOf(base: string, suffix: nat): string {
    Slice(base, MAX_LENGTH - |SuffixText(suffix)|)
  }

  lemma CandidateChars(base: string, s: nat)
    ensures AllNameChars(Candidate(base, s)) <==> AllNameChars(KeptOf(base, s))
  {
    DigitsShape(s);
    var kept, name := KeptOf(base, s), Candidate(base, s);
    assert forall i :: 0 <= i < |kept| ==> name[i] == kept[i];
    assert forall i :: |kept| <= i < |name| ==> name[i] == SuffixText(s)[i - |kept|];
  }

  /** Cutting the base leaves room for the suffix exactly up to 31 digits; then the characters kept of it decide. */
  lemma CandidateIsValidIff(base: string, s: nat)
    requires MIN_LENGTH <= |base| <= MAX_LENGTH
    ensures ValidUsername(Candidate(base, s)) <==> |Digits(s)| <= 31 && AllNameChars(KeptOf(base, s))
  {
    CandidateChars(base, s);
    assert |Candidate(base, s)| == |KeptOf(base, s)| + |SuffixText(s)|;
  }

  /** The part of the chosen name that comes from the asked one. */
  ghost function ChosenPart(value: string, used: set<string>, alnum: char -> bool, norm: string -> string): string
    requires KeepsSuffix(norm)
  {
    var base := Sanitize(value, alnum);
    if norm(base) !in used then base else KeptOf(base, FirstFree(base, used, norm, 1))
  }

  /**
   The chosen name is one the account validator accepts exactly when what it keeps of the name asked
   for are ASCII letters, digits, "_" and "-". This supposes fewer than 10^31 - 1 used names: a suffix
   of 32 digits would overflow the limit of 32 characters.
   */
  lemma UniqueUsernameIsValidIff(value: string, used: set<string>, alnum: char -> bool, norm: string -> string)
    requires KeepsSuffix(norm) && |used| + 1 < Pow10(31)
    ensures ValidUsername(UniqueUsername(value, used, alnum, norm)) <==> AllNameChars(ChosenPart(value, used, alnum, norm))
  {
    var base := Sanitize(value, alnum);
    SanitizeLength(value, alnum);
    if norm(base) in used {
      var s := FirstFree(base, used, norm, 1);
      DigitsLength(s, 31);
      CandidateIsValidIff(base, s);
    }
  }

  /** So it is for every name whose alphanumeric characters are ASCII. */
  lemma UniqueUsernameIsValid(value: string, used: set<string>, alnum: char -> bool, norm: string -> string)
    requires KeepsSuffix(norm) && |used| + 1 < Pow10(31)
    requires forall c :: c in value && alnum(c) ==> IsAsciiAlnum(c)
    ensures ValidUsername(UniqueUsername(value, used, alnum, norm))
  {
    var base := Sanitize(value, alnum);
    SanitizeChars(value, alnum);
    assert AllNameChars(ChosenPart(value, used, alnum, norm)) by {
      if norm(base) in used {
        assert KeptOf(base, FirstFree(base, used, norm, 1)) <= base;
      }
    }
    UniqueUsernameIsValidIff(value, used, alnum, norm);
  }

  /** Not so for a letter beyond ASCII, which counts as alphanumeric and is kept. */
  lemma LetterBeyondAsciiIsRejected(alnum: char -> bool, norm: string -> string)
    requires KeepsSuffix(norm) && alnum('Z') && alnum('o') && alnum('\U{00EB}')
    ensures UniqueUsername("Zo\U{00EB}", {}, alnum, norm) == "Zo\U{00EB}_user"
    ensures !ValidUsername(UniqueUsername("Zo\U{00EB}", {}, alnum, norm))
  {
    var value := "Zo\U{00EB}";
    assert Cleaned(value, alnum) == value;
    assert Stripped(value) == value;
    var name := UniqueUsername(value, {}, alnum, norm);
    assert name == value + "_user" && !IsNameChar(name[2]);
  }

  // ---- the ASCII normaliser ----

  lemma {:induction false} StripBlanksKeepsSuffix(x: string, n: nat)
    ensures EndsWith(StripBlanks(x + SuffixText(n)), SuffixText(n))
    decreases |x|
  {
    DigitsShape(n);
    var s := x + SuffixText(n);
    assert s[|s| - 1] == Digits(n)[|Digits(n)| - 1];
    if IsBlank(s[0]) {
      assert s[0] == if x == [] then '_' else x[0];
      assert s[1..] == x[1..] + SuffixText(n);
      StripBlanksKeepsSuffix(x[1..], n);
    } else {
      assert StripBlanks(s) == s;
    }
  }

  lemma LowerKeepsSuffix(s: string, n: nat)
    requires EndsWith(s, SuffixText(n))
    ensures EndsWith(Lower(s), SuffixText(n))
  {
    DigitsShape(n);
    var t := SuffixText(n);
    var k := |s| - |t|;
    forall i | 0 <= i < |t| ensures Lower(s)[k..][i] == t[i] {
      assert s[k..][i] == t[i] && LowerChar(t[i]) == t[i];
    }
  }

  lemma AsciiNormalizeKeepsSuffix()
    ensures KeepsSuffix(AsciiNormalize)
  {
    forall x: string, n: nat ensures EndsWith(AsciiNormalize(x + SuffixText(n)), SuffixText(n)) {
      StripBlanksKeepsSuffix(x, n);
      LowerKeepsSuffix(StripBlanks(x + SuffixText(n)), n);
    }
  }
}
