/**
 Values a rule condition can see, and the test of one condition against one value.

 String normalisation, number and date parsing, regular expressions and path normalisation are
 parameters (`Helpers`); every branch of the operator dispatch itself is written out.
 */
module RuleOperators {
  import opened Common

  /** `Unavailable` marks data the scan could not obtain; it is not the same as a missing value. */
  datatype Value =
    | Unavailable
    | Nothing
    | Truth(b: bool)
    | Number(r: real)
    | Text(s: string)
    | DateTime(microseconds: int)
    | Items(items: seq<Value>)

  /** The operator names a rule may carry; any other name matches nothing. */
  datatype Operator =
    | IfExists | IfNotExists | IsTrue | IsFalse | MatchesAnyRegex
    | In | NotIn | ContainsAny | NotContainsAny | ContainsAll | NotContainsAll
    | ContainsSubstring | NotContainsSubstring
    | Equals | NotEquals | Before | OnOrBefore | After | OnOrAfter
    | GreaterThan | GreaterThanOrEqual | LessThan | LessThanOrEqual
    | Unrecognised

  /** The library routines the dispatch calls into. */
  datatype Helpers = Helpers(
    isBlank: string -> bool,
    normalize: Value -> string,
    number: Value -> Option<real>,
    date: Value -> Option<int>,
    language: Value -> Option<string>,
    country: Value -> Option<string>,
    path: (Value, bool) -> string,
    regexCompiles: Value -> bool,
    regexFinds: (Value, string) -> bool)

  /** The field classes the dispatch tells apart. */
  datatype FieldKind = PathField | LanguageField | CountryField | MultiTextField | PlainField
  {
    predicate IsMultiValueText() {
      LanguageField? || CountryField? || MultiTextField?
    }

    /** List comparisons on these fail when either side normalises to nothing. */
    predicate FailsClosed() {
      LanguageField? || CountryField?
    }
  }

  function KindOf(field: string): FieldKind {
    if field == "media.path" then PathField
    else if field in {"audio.languages", "subtitle.languages", "tmdb.original_language"} then LanguageField
    else if field == "tmdb.origin_country" then CountryField
    else if field in {
      "arr.tags", "arr.movie_ids", "arr.series_ids", "favorites.usernames", "video.codec_family",
      "audio.codec_family", "playback.usernames"
    } then MultiTextField
    else PlainField
  }

  predicate Exists(h: Helpers, v: Value) {
    match v
    case Nothing => false
    case Text(s) => !h.isBlank(s)
    case Items(items) => exists i :: 0 <= i < |items| && Exists(h, items[i])
    case _ => true
  }

  function AsList(v: Value): seq<Value> {
    match v
    case Nothing => []
    case Items(items) => items
    case _ => [v]
  }

  function FirstScalar(v: Value): Value {
    match v
    case Items(items) => if items == [] then Nothing else items[0]
    case _ => v
  }

  /** The entries of a value that exist, as a list. */
  function Present(h: Helpers, v: Value): set<Value> {
    set x | x in AsList(v) && Exists(h, x)
  }

  function Languages(h: Helpers, v: Value): set<string> {
    set x | x in AsList(v) && h.language(x).Some? :: h.language(x).value
  }

  function Countries(h: Helpers, v: Value): set<string> {
    set x | x in AsList(v) && h.country(x).Some? :: h.country(x).value
  }

  function NormalizedTexts(h: Helpers, v: Value): set<string> {
    set x | x in Present(h, v) :: h.normalize(x)
  }

  predicate PathPrefix(h: Helpers, actual: Value, expected: Value) {
    var a := h.path(actual, false);
    var e := h.path(expected, true);
    a != "" && e != "" && (a == e || e + "/" <= a)
  }

  predicate Substring(needle: string, haystack: string) {
    exists k :: 0 <= k <= |haystack| && needle <= haystack[k..]
  }

  predicate AnyRegex(h: Helpers, actual: Value, patterns: Value) {
    exists p, v ::
      && p in AsList(patterns) && v in Present(h, actual)
      && h.regexCompiles(p) && h.regexFinds(p, h.path(v, false))
  }

  /** The values a list comparison works on: paths, language codes, countries or normalised texts. */
  function ListValues(h: Helpers, kind: FieldKind, v: Value, isExpected: bool): set<string> {
    match kind
    case PathField => set x | x in Present(h, v) :: h.path(x, isExpected)
    case LanguageField => Languages(h, v)
    case CountryField => Countries(h, v)
    case _ => NormalizedTexts(h, v)
  }

  /** Whether an actual list value answers to an expected one. */
  predicate Answers(h: Helpers, kind: FieldKind, actual: string, expected: string) {
    if kind.PathField? then PathPrefix(h, Text(actual), Text(expected)) else actual == expected
  }

  predicate HasAny(h: Helpers, kind: FieldKind, actuals: set<string>, expecteds: set<string>) {
    exists a, e :: a in actuals && e in expecteds && Answers(h, kind, a, e)
  }

  predicate HasAll(h: Helpers, kind: FieldKind, actuals: set<string>, expecteds: set<string>) {
    forall e :: e in expecteds ==> exists a :: a in actuals && Answers(h, kind, a, e)
  }

  /** `_matches_path_prefix` on paths; otherwise as numbers when both are numbers, else as texts. */
  predicate SameScalar(h: Helpers, kind: FieldKind, left: Value, right: Value) {
    if kind.PathField? then PathPrefix(h, left, right)
    else if h.number(left).Some? && h.number(right).Some? then h.number(left) == h.number(right)
    else h.normalize(left) == h.normalize(right)
  }

  predicate FoundSubstring(h: Helpers, expected: Value, actual: Value) {
    exists n, y :: n in NormalizedTexts(h, expected) && y in NormalizedTexts(h, actual) && Substring(n, y)
  }

  predicate ValueExists(h: Helpers, kind: FieldKind, actual: Value) {
    if kind.LanguageField? then Languages(h, actual) != {} else Exists(h, actual)
  }

  /** Two readings of one condition's sides, present when both sides parse. */
  function Both<T>(left: Option<T>, right: Option<T>): Option<(T, T)> {
    if left.Some? && right.Some? then Some((left.value, right.value)) else None
  }

  /** Everything the operators can ask of an available value and an expected one. */
  datatype Evidence = Evidence(
    present: bool, isTrue: bool, isFalse: bool, regexFound: bool,
    listDecidable: bool, hasAny: bool, hasAll: bool,
    hasNeedles: bool, substringFound: bool,
    dates: Option<(int, int)>, hasScalars: bool, sameScalar: bool, numbers: Option<(real, real)>)

  function Gather(h: Helpers, kind: FieldKind, expected: Value, actual: Value): Evidence {
    var actuals := ListValues(h, kind, actual, false);
    var expecteds := ListValues(h, kind, expected, true);
    var left := FirstScalar(actual);
    var right := FirstScalar(expected);
    Evidence(
      ValueExists(h, kind, actual), actual == Truth(true), actual == Truth(false), AnyRegex(h, actual, expected),
      expecteds != {} && (kind.FailsClosed() ==> actuals != {}),
      HasAny(h, kind, actuals, expecteds), HasAll(h, kind, actuals, expecteds),
      NormalizedTexts(h, expected) != {}, FoundSubstring(h, expected, actual),
      Both(h.date(left), h.date(right)),
      left != Nothing && right != Nothing, SameScalar(h, kind, left, right), Both(h.number(left), h.number(right)))
  }

  /** What an operator makes of the evidence. */
  predicate Verdict(kind: FieldKind, operator: Operator, ev: Evidence) {
    match operator
    case IfExists => ev.present
    case IfNotExists => !ev.present
    case IsTrue => ev.isTrue
    case IsFalse => ev.isFalse
    case MatchesAnyRegex => ev.regexFound
    case In | ContainsAny => ev.listDecidable && ev.hasAny
    case NotIn | NotContainsAny => ev.listDecidable && !ev.hasAny
    case ContainsAll => ev.listDecidable && ev.hasAll
    case NotContainsAll => ev.listDecidable && !ev.hasAll
    case ContainsSubstring => ev.hasNeedles && ev.substringFound
    case NotContainsSubstring => ev.hasNeedles && !ev.substringFound
    case Equals =>
      if kind.IsMultiValueText() then ev.listDecidable && ev.hasAny else ev.hasScalars && ev.sameScalar
    case NotEquals =>
      if kind.IsMultiValueText() then ev.listDecidable && !ev.hasAny else ev.hasScalars && !ev.sameScalar
    case Before => ev.dates.Some? && ev.dates.value.0 < ev.dates.value.1
    case OnOrBefore => ev.dates.Some? && ev.dates.value.0 <= ev.dates.value.1
    case After => ev.dates.Some? && ev.dates.value.0 > ev.dates.value.1
    case OnOrAfter => ev.dates.Some? && ev.dates.value.0 >= ev.dates.value.1
    case GreaterThan => ev.hasScalars && ev.numbers.Some? && ev.numbers.value.0 > ev.numbers.value.1
    case GreaterThanOrEqual => ev.hasScalars && ev.numbers.Some? && ev.numbers.value.0 >= ev.numbers.value.1
    case LessThan => ev.hasScalars && ev.numbers.Some? && ev.numbers.value.0 < ev.numbers.value.1
    case LessThanOrEqual => ev.hasScalars && ev.numbers.Some? && ev.numbers.value.0 <= ev.numbers.value.1
    case Unrecognised => false
  }

  /** One condition operator against one value. */
  predicate MatchesOperator(h: Helpers, field: string, operator: Operator, expected: Value, actual: Value) {
    actual != Unavailable && Verdict(KindOf(field), operator, Gather(h, KindOf(field), expected, actual))
  }

  /** Operators that come in opposite pairs. */
  function Opposite(operator: Operator): Option<Operator> {
    match operator
    case IfExists => Some(IfNotExists)
    case In => Some(NotIn)
    case ContainsAny => Some(NotContainsAny)
    case ContainsAll => Some(NotContainsAll)
    case ContainsSubstring => Some(NotContainsSubstring)
    case Equals => Some(NotEquals)
    case Before => Some(OnOrAfter)
    case After => Some(OnOrBefore)
    case GreaterThan => Some(LessThanOrEqual)
    case LessThan => Some(GreaterThanOrEqual)
    case _ => None
  }

  /** Whether the evidence decides an operator that has an opposite. */
  predicate Decides(kind: FieldKind, operator: Operator, ev: Evidence) {
    match operator
    case IfExists => true
    case In | ContainsAny | ContainsAll => ev.listDecidable
    case ContainsSubstring => ev.hasNeedles
    case Equals => if kind.IsMultiValueText() then ev.listDecidable else ev.hasScalars
    case Before | After => ev.dates.Some?
    case GreaterThan | LessThan => ev.hasScalars && ev.numbers.Some?
    case _ => false
  }

  lemma OppositeVerdicts(kind: FieldKind, operator: Operator, ev: Evidence)
    requires Opposite(operator).Some?
    ensures Verdict(kind, Opposite(operator).value, ev) <==> Decides(kind, operator, ev) && !Verdict(kind, operator, ev)
    ensures Verdict(kind, operator, ev) ==> Decides(kind, operator, ev)
  {
  }

  /**
   A negated operator is the complement of its positive form on exactly the data that decides the
   condition; on all other data both fail, so a rule never matches for lack of data.
   */
  lemma OppositesFailClosed(h: Helpers, field: string, operator: Operator, expected: Value, actual: Value)
    requires Opposite(operator).Some?
    ensures
      var decided := actual != Unavailable && Decides(KindOf(field), operator, Gather(h, KindOf(field), expected, actual));
      var holds := MatchesOperator(h, field, operator, expected, actual);
      && (holds ==> decided)
      && (MatchesOperator(h, field, Opposite(operator).value, expected, actual) <==> decided && !holds)
  {
    OppositeVerdicts(KindOf(field), operator, Gather(h, KindOf(field), expected, actual));
  }
}
