/** What every condition operator asks of the two sides, entry by entry and field by field. */
module RuleMeaning {
  import opened Common
  import opened RuleOperators

  predicate IsLanguage(field: string) {
    field == "audio.languages" || field == "subtitle.languages" || field == "tmdb.original_language"
  }

  predicate IsCountry(field: string) {
    field == "tmdb.origin_country"
  }

  /** Fields whose "equals" is a question about lists. */
  predicate IsMultiValued(field: string) {
    || IsLanguage(field) || IsCountry(field)
    || field == "arr.tags" || field == "arr.movie_ids" || field == "arr.series_ids" || field == "favorites.usernames"
    || field == "video.codec_family" || field == "audio.codec_family" || field == "playback.usernames"
  }

  /** An entry of a list, or a single value that is not missing. */
  ghost predicate Entry(v: Value, x: Value) {
    if v.Items? then exists i :: 0 <= i < |v.items| && v.items[i] == x else v != Nothing && x == v
  }

  /** The value a scalar comparison looks at: the first entry of a list, nothing for an empty one. */
  ghost predicate First(v: Value, x: Value) {
    if !v.Items? then x == v else if |v.items| == 0 then x == Nothing else x == v.items[0]
  }

  /** What stands in a nested list at a path of positions. */
  ghost function At(v: Value, path: seq<nat>): Option<Value>
    decreases |path|
  {
    if path == [] then Some(v)
    else if v.Items? && path[0] < |v.items| then At(v.items[path[0]], path[1..])
    else None
  }

  /** Something that is there: no list, not missing and not blank. */
  ghost predicate IsContent(h: Helpers, x: Option<Value>) {
    x.Some? && !x.value.Items? && x.value != Nothing && (x.value.Text? ==> !h.isBlank(x.value.s))
  }

  lemma {:induction false} ContentBelow(h: Helpers, v: Value) returns (path: seq<nat>)
    requires Exists(h, v)
    ensures IsContent(h, At(v, path))
    decreases v
  {
    path := [];
    if v.Items? {
      var i :| 0 <= i < |v.items| && Exists(h, v.items[i]);
      var below := ContentBelow(h, v.items[i]);
      path := [i] + below;
      assert path[1..] == below;
    }
  }

  lemma {:induction false} ContentExists(h: Helpers, v: Value, path: seq<nat>)
    requires IsContent(h, At(v, path))
    ensures Exists(h, v)
    decreases |path|
  {
    if path != [] {
      ContentExists(h, v.items[path[0]], path[1..]);
    }
  }

  ghost predicate HasContent(h: Helpers, v: Value) {
    exists path: seq<nat> :: IsContent(h, At(v, path))
  }

  /** A value exists exactly when some path through its nested lists ends at content. */
  lemma ExistsIff(h: Helpers, v: Value)
    ensures Exists(h, v) <==> HasContent(h, v)
  {
    if Exists(h, v) {
      var path: seq<nat> := ContentBelow(h, v);
    }
    forall path: seq<nat> | IsContent(h, At(v, path)) ensures Exists(h, v) {
      ContentExists(h, v, path);
    }
  }

  /** Exactly an entry that can be read takes part in a list comparison. */
  ghost predicate Readable(h: Helpers, field: string, v: Value, x: Value) {
    && Entry(v, x)
    && if IsLanguage(field) then h.language(x).Some? else if IsCountry(field) then h.country(x).Some? else Exists(h, x)
  }

  /** The path itself, or one below it. */
  ghost predicate IsBelow(path: string, prefix: string) {
    && path != "" && prefix != ""
    && (path == prefix || (|path| > |prefix| && path[|prefix|] == '/' && forall i :: 0 <= i < |prefix| ==> path[i] == prefix[i]))
  }

  /** An actual entry answers to an expected one. */
  ghost predicate Agree(h: Helpers, field: string, x: Value, y: Value) {
    if field == "media.path" then IsBelow(h.path(Text(h.path(x, false)), false), h.path(Text(h.path(y, true)), true))
    else if IsLanguage(field) then h.language(x) == h.language(y)
    else if IsCountry(field) then h.country(x) == h.country(y)
    else h.normalize(x) == h.normalize(y)
  }

  lemma KindIff(field: string)
    ensures KindOf(field).PathField? <==> field == "media.path"
    ensures KindOf(field).LanguageField? <==> IsLanguage(field)
    ensures KindOf(field).CountryField? <==> IsCountry(field)
    ensures KindOf(field).IsMultiValueText() <==> IsMultiValued(field)
    ensures KindOf(field).FailsClosed() <==> IsLanguage(field) || IsCountry(field)
  {
  }

  lemma PathPrefixIff(h: Helpers, actual: Value, expected: Value)
    ensures PathPrefix(h, actual, expected) <==> IsBelow(h.path(actual, false), h.path(expected, true))
  {
    var a, e := h.path(actual, false), h.path(expected, true);
    if e + "/" <= a {
      assert a[|e|] == (e + "/")[|e|] && forall i :: 0 <= i < |e| ==> a[i] == (e + "/")[i];
    }
    if IsBelow(a, e) && a != e {
      assert e + "/" == a[..|e| + 1];
    }
  }

  /** How an entry is compared: as a path, a language code, a country or a normalised text. */
  ghost function Read(h: Helpers, field: string, x: Value, isExpected: bool): string
    requires IsLanguage(field) ==> h.language(x).Some?
    requires IsCountry(field) ==> h.country(x).Some?
  {
    if field == "media.path" then h.path(x, isExpected)
    else if IsLanguage(field) then h.language(x).value
    else if IsCountry(field) then h.country(x).value
    else h.normalize(x)
  }

  lemma ListedIff(v: Value, x: Value)
    ensures x in AsList(v) <==> Entry(v, x)
  {
  }

  lemma ReadableIsListed(h: Helpers, field: string, v: Value, x: Value, isExpected: bool)
    requires Readable(h, field, v, x)
    ensures Read(h, field, x, isExpected) in ListValues(h, KindOf(field), v, isExpected)
  {
    ListedIff(v, x);
    KindIff(field);
    if !IsLanguage(field) && !IsCountry(field) {
      assert x in Present(h, v);
    }
  }

  lemma ListedIsReadable(h: Helpers, field: string, v: Value, s: string, isExpected: bool) returns (x: Value)
    requires s in ListValues(h, KindOf(field), v, isExpected)
    ensures Readable(h, field, v, x) && s == Read(h, field, x, isExpected)
  {
    KindIff(field);
    if IsLanguage(field) {
      x :| x in AsList(v) && h.language(x).Some? && s == h.language(x).value;
    } else if IsCountry(field) {
      x :| x in AsList(v) && h.country(x).Some? && s == h.country(x).value;
    } else if field == "media.path" {
      x :| x in Present(h, v) && s == h.path(x, isExpected);
    } else {
      x :| x in Present(h, v) && s == h.normalize(x);
    }
    ListedIff(v, x);
  }

  lemma AnswersIff(h: Helpers, field: string, actual: Value, x: Value, expected: Value, y: Value)
    requires Readable(h, field, actual, x) && Readable(h, field, expected, y)
    ensures Answers(h, KindOf(field), Read(h, field, x, false), Read(h, field, y, true)) <==> Agree(h, field, x, y)
  {
    KindIff(field);
    if field == "media.path" {
      PathPrefixIff(h, Text(h.path(x, false)), Text(h.path(y, true)));
    }
  }

  /** An expected entry that can be read is answered by an actual one. */
  ghost predicate Answered(h: Helpers, field: string, actual: Value, y: Value) {
    exists x :: Readable(h, field, actual, x) && Agree(h, field, x, y)
  }

  lemma AnsweredIff(h: Helpers, field: string, actual: Value, expected: Value, y: Value)
    requires Readable(h, field, expected, y)
    ensures Answered(h, field, actual, y) <==>
      exists a :: a in ListValues(h, KindOf(field), actual, false) && Answers(h, KindOf(field), a, Read(h, field, y, true))
  {
    var kind := KindOf(field);
    var actuals := ListValues(h, kind, actual, false);
    if Answered(h, field, actual, y) {
      var x :| Readable(h, field, actual, x) && Agree(h, field, x, y);
      AnswersIff(h, field, actual, x, expected, y);
      ReadableIsListed(h, field, actual, x, false);
    }
    if a :| a in actuals && Answers(h, kind, a, Read(h, field, y, true)) {
      var x := ListedIsReadable(h, field, actual, a, false);
      AnswersIff(h, field, actual, x, expected, y);
    }
  }

  ghost predicate SomeReadable(h: Helpers, field: string, v: Value) {
    exists x :: Readable(h, field, v, x)
  }

  ghost predicate SomeAnswered(h: Helpers, field: string, actual: Value, expected: Value) {
    exists y :: Readable(h, field, expected, y) && Answered(h, field, actual, y)
  }

  ghost predicate AllAnswered(h: Helpers, field: string, actual: Value, expected: Value) {
    forall y :: Readable(h, field, expected, y) ==> Answered(h, field, actual, y)
  }

  lemma SomeReadableIff(h: Helpers, field: string, v: Value, isExpected: bool)
    ensures SomeReadable(h, field, v) <==> ListValues(h, KindOf(field), v, isExpected) != {}
  {
    if SomeReadable(h, field, v) {
      var x :| Readable(h, field, v, x);
      ReadableIsListed(h, field, v, x, isExpected);
    }
    if s :| s in ListValues(h, KindOf(field), v, isExpected) {
      var x := ListedIsReadable(h, field, v, s, isExpected);
    }
  }

  lemma SomeAnsweredIff(h: Helpers, field: string, actual: Value, expected: Value)
    ensures SomeAnswered(h, field, actual, expected) <==>
      HasAny(h, KindOf(field), ListValues(h, KindOf(field), actual, false), ListValues(h, KindOf(field), expected, true))
  {
    var kind := KindOf(field);
    var actuals, expecteds := ListValues(h, kind, actual, false), ListValues(h, kind, expected, true);
    if SomeAnswered(h, field, actual, expected) {
      var y :| Readable(h, field, expected, y) && Answered(h, field, actual, y);
      AnsweredIff(h, field, actual, expected, y);
      ReadableIsListed(h, field, expected, y, true);
    }
    if HasAny(h, kind, actuals, expecteds) {
      var a, e :| a in actuals && e in expecteds && Answers(h, kind, a, e);
      var y := ListedIsReadable(h, field, expected, e, true);
      AnsweredIff(h, field, actual, expected, y);
    }
  }

  lemma AllAnsweredIff(h: Helpers, field: string, actual: Value, expected: Value)
    ensures AllAnswered(h, field, actual, expected) <==>
      HasAll(h, KindOf(field), ListValues(h, KindOf(field), actual, false), ListValues(h, KindOf(field), expected, true))
  {
    var kind := KindOf(field);
    var actuals, expecteds := ListValues(h, kind, actual, false), ListValues(h, kind, expected, true);
    if AllAnswered(h, field, actual, expected) {
      forall e | e in expecteds ensures exists a :: a in actuals && Answers(h, kind, a, e) {
        var y := ListedIsReadable(h, field, expected, e, true);
        AnsweredIff(h, field, actual, expected, y);
      }
    }
    if HasAll(h, kind, actuals, expecteds) {
      forall y | Readable(h, field, expected, y) ensures Answered(h, field, actual, y) {
        AnsweredIff(h, field, actual, expected, y);
        ReadableIsListed(h, field, expected, y, true);
      }
    }
  }

  // ---- the operators ----

  /** Unavailable data and unknown operators match nothing. */
  lemma NothingMatches(h: Helpers, field: string, operator: Operator, expected: Value, actual: Value)
    requires actual == Unavailable || operator == Unrecognised
    ensures !MatchesOperator(h, field, operator, expected, actual)
  {
  }

  lemma TruthOperators(h: Helpers, field: string, expected: Value, actual: Value)
    ensures MatchesOperator(h, field, IsTrue, expected, actual) <==> actual == Truth(true)
    ensures MatchesOperator(h, field, IsFalse, expected, actual) <==> actual == Truth(false)
  {
  }

  ghost predicate IsThere(h: Helpers, field: string, v: Value) {
    if IsLanguage(field) then SomeReadable(h, field, v) else HasContent(h, v)
  }

  lemma IsThereIff(h: Helpers, field: string, v: Value)
    ensures IsThere(h, field, v) <==> ValueExists(h, KindOf(field), v)
  {
    KindIff(field);
    ExistsIff(h, v);
    if IsLanguage(field) {
      SomeReadableIff(h, field, v, false);
    }
  }

  /** Presence: a language that can be read, on other fields any content. */
  lemma PresenceOperators(h: Helpers, field: string, operator: Operator, expected: Value, actual: Value)
    requires actual != Unavailable && (operator == IfExists || operator == IfNotExists)
    ensures MatchesOperator(h, field, operator, expected, actual) <==> (operator == IfExists <==> IsThere(h, field, actual))
  {
    IsThereIff(h, field, actual);
  }

  /** The list operators; "equals" and "not equals" are among them on fields with several values. */
  predicate ComparesLists(field: string, operator: Operator) {
    || operator == In || operator == ContainsAny || operator == ContainsAll
    || operator == NotIn || operator == NotContainsAny || operator == NotContainsAll
    || (IsMultiValued(field) && (operator == Equals || operator == NotEquals))
  }

  lemma ListEvidence(h: Helpers, field: string, expected: Value, actual: Value)
    ensures var ev := Gather(h, KindOf(field), expected, actual);
      && (ev.listDecidable <==>
            SomeReadable(h, field, expected) && (IsLanguage(field) || IsCountry(field) ==> SomeReadable(h, field, actual)))
      && (ev.hasAny <==> SomeAnswered(h, field, actual, expected))
      && (ev.hasAll <==> AllAnswered(h, field, actual, expected))
  {
    KindIff(field);
    SomeReadableIff(h, field, expected, true);
    SomeReadableIff(h, field, actual, false);
    SomeAnsweredIff(h, field, actual, expected);
    AllAnsweredIff(h, field, actual, expected);
  }

  lemma ListVerdict(field: string, operator: Operator, ev: Evidence)
    requires ComparesLists(field, operator)
    ensures Verdict(KindOf(field), operator, ev) <==>
      && ev.listDecidable
      && match operator
         case In | ContainsAny | Equals => ev.hasAny
         case NotIn | NotContainsAny | NotEquals => !ev.hasAny
         case ContainsAll => ev.hasAll
         case _ => !ev.hasAll
  {
    KindIff(field);
  }

  /** List comparisons fail without something to compare; otherwise they ask for one answer or for all. */
  lemma ListOperators(h: Helpers, field: string, operator: Operator, expected: Value, actual: Value)
    requires actual != Unavailable && ComparesLists(field, operator)
    ensures MatchesOperator(h, field, operator, expected, actual) <==>
      && SomeReadable(h, field, expected)
      && (IsLanguage(field) || IsCountry(field) ==> SomeReadable(h, field, actual))
      && match operator
         case In | ContainsAny | Equals => SomeAnswered(h, field, actual, expected)
         case NotIn | NotContainsAny | NotEquals => !SomeAnswered(h, field, actual, expected)
         case ContainsAll => AllAnswered(h, field, actual, expected)
         case _ => !AllAnswered(h, field, actual, expected)
  {
    ListEvidence(h, field, expected, actual);
    ListVerdict(field, operator, Gather(h, KindOf(field), expected, actual));
  }

  lemma FirstIff(v: Value, x: Value)
    ensures First(v, x) <==> x == FirstScalar(v)
  {
  }

  /** The date operators compare the first entries, and fail unless both are dates. */
  lemma DateOperators(h: Helpers, field: string, operator: Operator, expected: Value, actual: Value, x: Value, y: Value)
    requires actual != Unavailable && First(actual, x) && First(expected, y)
    requires operator == Before || operator == OnOrBefore || operator == After || operator == OnOrAfter
    ensures MatchesOperator(h, field, operator, expected, actual) <==>
      && h.date(x).Some? && h.date(y).Some?
      && match operator
         case Before => h.date(x).value < h.date(y).value
         case OnOrBefore => h.date(x).value <= h.date(y).value
         case After => h.date(y).value < h.date(x).value
         case _ => h.date(y).value <= h.date(x).value
  {
    FirstIff(actual, x);
    FirstIff(expected, y);
  }

  /** The number operators compare the first entries, and fail unless both are there and are numbers. */
  lemma NumberOperators(h: Helpers, field: string, operator: Operator, expected: Value, actual: Value, x: Value, y: Value)
    requires actual != Unavailable && First(actual, x) && First(expected, y)
    requires operator == GreaterThan || operator == GreaterThanOrEqual || operator == LessThan || operator == LessThanOrEqual
    ensures MatchesOperator(h, field, operator, expected, actual) <==>
      && x != Nothing && y != Nothing && h.number(x).Some? && h.number(y).Some?
      && match operator
         case GreaterThan => h.number(y).value < h.number(x).value
         case GreaterThanOrEqual => h.number(y).value <= h.number(x).value
         case LessThan => h.number(x).value < h.number(y).value
         case _ => h.number(x).value <= h.number(y).value
  {
    FirstIff(actual, x);
    FirstIff(expected, y);
  }

  /** "Equals" on a field with one value: a path at or below the expected one, the same number, or else the same text. */
  lemma EqualityOperators(h: Helpers, field: string, operator: Operator, expected: Value, actual: Value, x: Value, y: Value)
    requires actual != Unavailable && First(actual, x) && First(expected, y)
    requires !IsMultiValued(field) && (operator == Equals || operator == NotEquals)
    ensures var same :=
        if field == "media.path" then IsBelow(h.path(x, false), h.path(y, true))
        else if h.number(x).Some? && h.number(y).Some? then h.number(x).value == h.number(y).value
        else h.normalize(x) == h.normalize(y);
      MatchesOperator(h, field, operator, expected, actual) <==> x != Nothing && y != Nothing && (operator == Equals <==> same)
  {
    KindIff(field);
    FirstIff(actual, x);
    FirstIff(expected, y);
    PathPrefixIff(h, x, y);
  }

  /** An entry that is there, as a normalised text. */
  ghost predicate EntryText(h: Helpers, v: Value, x: Value, s: string) {
    Entry(v, x) && Exists(h, x) && s == h.normalize(x)
  }

  lemma TextIff(h: Helpers, v: Value, s: string)
    ensures s in NormalizedTexts(h, v) <==> exists x :: EntryText(h, v, x, s)
  {
    if s in NormalizedTexts(h, v) {
      var x :| x in Present(h, v) && s == h.normalize(x);
      ListedIff(v, x);
      assert EntryText(h, v, x, s);
    }
    if x :| EntryText(h, v, x, s) {
      ListedIff(v, x);
      assert x in Present(h, v);
    }
  }

  lemma SubstringIff(needle: string, haystack: string)
    ensures Substring(needle, haystack) <==> exists before, after :: haystack == before + needle + after
  {
    if Substring(needle, haystack) {
      var k :| 0 <= k <= |haystack| && needle <= haystack[k..];
      assert haystack == haystack[..k] + needle + haystack[k + |needle|..];
    }
    if before, after :| haystack == before + needle + after {
      assert haystack[|before|..] == needle + after;
    }
  }

  /** Some actual text contains some expected one. */
  ghost predicate Contained(h: Helpers, expected: Value, actual: Value) {
    exists x, y, n, t, before, after :: EntryText(h, expected, x, n) && EntryText(h, actual, y, t) && t == before + n + after
  }

  lemma ContainedIff(h: Helpers, expected: Value, actual: Value)
    ensures FoundSubstring(h, expected, actual) <==> Contained(h, expected, actual)
  {
    if FoundSubstring(h, expected, actual) {
      var n, t :| n in NormalizedTexts(h, expected) && t in NormalizedTexts(h, actual) && Substring(n, t);
      TextIff(h, expected, n);
      TextIff(h, actual, t);
      SubstringIff(n, t);
    }
    if Contained(h, expected, actual) {
      var x, y, n, t, before, after :| EntryText(h, expected, x, n) && EntryText(h, actual, y, t) && t == before + n + after;
      TextIff(h, expected, n);
      TextIff(h, actual, t);
      SubstringIff(n, t);
    }
  }

  /** The substring operators fail without an expected text. */
  lemma SubstringOperators(h: Helpers, field: string, operator: Operator, expected: Value, actual: Value)
    requires actual != Unavailable && (operator == ContainsSubstring || operator == NotContainsSubstring)
    ensures MatchesOperator(h, field, operator, expected, actual) <==>
      SomeText(h, expected) && (operator == ContainsSubstring <==> Contained(h, expected, actual))
  {
    ContainedIff(h, expected, actual);
    SomeTextIff(h, expected);
  }

  ghost predicate SomeText(h: Helpers, v: Value) {
    exists x, s :: EntryText(h, v, x, s)
  }

  lemma SomeTextIff(h: Helpers, v: Value)
    ensures SomeText(h, v) <==> NormalizedTexts(h, v) != {}
  {
    if s :| s in NormalizedTexts(h, v) {
      TextIff(h, v, s);
    }
    if x, s :| EntryText(h, v, x, s) {
      TextIff(h, v, s);
    }
  }

  ghost predicate PatternFound(h: Helpers, expected: Value, actual: Value) {
    exists p, x :: Entry(expected, p) && Entry(actual, x) && Exists(h, x) && h.regexCompiles(p) && h.regexFinds(p, h.path(x, false))
  }

  /** The pattern operator needs one pattern that compiles to be found in one entry. */
  lemma PatternOperator(h: Helpers, field: string, expected: Value, actual: Value)
    requires actual != Unavailable
    ensures MatchesOperator(h, field, MatchesAnyRegex, expected, actual) <==>
      PatternFound(h, expected, actual)
  {
    PatternIff(h, expected, actual);
  }

  lemma PatternIff(h: Helpers, expected: Value, actual: Value)
    ensures AnyRegex(h, actual, expected) <==> PatternFound(h, expected, actual)
  {
    forall p, x ensures p in AsList(expected) && x in Present(h, actual) <==> Entry(expected, p) && Entry(actual, x) && Exists(h, x) {
      ListedIff(expected, p);
      ListedIff(actual, x);
    }
  }
}
