/** What the application does with the answers of the language-model service:
    the category chain, the slug clean-up, and the fallbacks the service's
    `try` blocks return. Each answer is a parameter. `summarizeLink` and
    `generateShortSlug` make the call inside their `try`, so their `None`
    stands for the call or the parse throwing. `breakdownProject`,
    `smartMapEventsToPara` and `generateSmartMockEvents` make the call before
    their `try`: their `None` stands for the parse throwing only, and a
    rejected call reaches the caller as `Rejected`. */
module Gemini {
  import opened Strings
  import opened Seqs
  import opened Types

  /** The outcome of a call whose request is made outside the `try`: the
      promise rejects, or the text arrives and its parse succeeds (`Some`)
      or throws (`None`). */
  datatype Reply<T> = Rejected | Answered(parsed: Option<T>)

  // categorizeTask

  /** The first category literal the trimmed answer mentions, in the order
      Projects, Areas, Resources; anything else is Archives. */
  function CategoryFromText(text: string): (c: ParaCategory)
    ensures var t := Trim(text);
      (c == Projects <==> Contains(t, "Projects"))
      && (c == Areas <==> !Contains(t, "Projects") && Contains(t, "Areas"))
      && (c == Resources <==> !Contains(t, "Projects") && !Contains(t, "Areas") && Contains(t, "Resources"))
  {
    var result := Trim(text);
    if Contains(result, "Projects") then Projects
    else if Contains(result, "Areas") then Areas
    else if Contains(result, "Resources") then Resources
    else Archives
  }

  /** An answer that is exactly a category literal yields that category. */
  lemma CategoryFromLiteral(c: ParaCategory)
    ensures CategoryFromText(CategoryName(c)) == c
  {
    var name := CategoryName(c);
    match c
    case Projects => ProjectsLiteral(name);
    case Areas => AreasLiteral(name);
    case Resources => ResourcesLiteral(name);
    case Archives => ArchivesLiteral(name);
  }

  // The literal is passed as a parameter so that the solver reasons about
  // it symbolically instead of evaluating the string functions on it.

  lemma ProjectsLiteral(s: string)
    requires s == "Projects"
    ensures CategoryFromText(s) == Projects
  {
    TrimUntouched(s);
    ContainsSelf(s);
  }

  lemma AreasLiteral(s: string)
    requires s == "Areas"
    ensures CategoryFromText(s) == Areas
  {
    TrimUntouched(s);
    NotContainedShorter(s, "Projects");
    ContainsSelf(s);
  }

  lemma ResourcesLiteral(s: string)
    requires s == "Resources"
    ensures CategoryFromText(s) == Resources
  {
    TrimUntouched(s);
    NotStartsAnywhere(s, "Projects", 'P');
    NotStartsAnywhere(s, "Areas", 'A');
    ContainsSelf(s);
  }

  lemma ArchivesLiteral(s: string)
    requires s == "Archives"
    ensures CategoryFromText(s) == Archives
  {
    TrimUntouched(s);
    NotStartsAnywhere(s, "Projects", 'P');
    NotContainedShorter(s, "Resources");
    ArchivesLacksAreas();
  }

  lemma ArchivesLacksAreas()
    ensures !Contains("Archives", "Areas")
  {
    var n, b := "Archives", "Areas";
    assert n[..5] != b by { assert n[..5][2] == 'c' && b[2] == 'e'; }
    assert !StartsWith(n, b);
    NotStartsAnywhere(n[1..], b, 'A');
  }

  /** A string without the pattern's first character does not contain it. */
  lemma {:induction false} NotStartsAnywhere(s: string, sub: string, first: char)
    requires sub != [] && sub[0] == first && first !in s
    ensures !Contains(s, sub)
  {
    if s != [] {
      assert s[0] != first;
      NotStartsAnywhere(s[1..], sub, first);
    }
  }

  lemma {:induction false} NotContainedShorter(s: string, sub: string)
    requires |s| < |sub|
    ensures !Contains(s, sub)
  {
    if s != [] {
      NotContainedShorter(s[1..], sub);
    }
  }

  // generateShortSlug

  predicate IsSlugChar(c: char) {
    ('a' <= c <= 'z') || ('0' <= c <= '9') || c == '-'
  }

  /** `text.trim().toLowerCase().replace(/[^a-z0-9-]/g, '')`. */
  function SanitizeSlug(text: string): (slug: string)
    ensures forall i :: 0 <= i < |slug| ==> IsSlugChar(slug[i])
    ensures |slug| <= |text|
  {
    var t := Trim(text);
    FilterLength(ToLower(t), IsSlugChar);
    Filter(ToLower(t), IsSlugChar)
  }

  /** A string that is already a slug passes through unchanged; so cleaning
      is idempotent. */
  lemma SanitizeKeepsSlug(s: string)
    requires forall i :: 0 <= i < |s| ==> IsSlugChar(s[i])
    ensures SanitizeSlug(s) == s
  {
    TrimNoWhitespace(s);
    assert ToLower(s) == s;
    FilterKeepsAll(s, IsSlugChar);
  }

  lemma SanitizeIdempotent(text: string)
    ensures SanitizeSlug(SanitizeSlug(text)) == SanitizeSlug(text)
  {
    SanitizeKeepsSlug(SanitizeSlug(text));
  }

  /** Upper-case letters survive the clean-up as their lower-case forms. */
  lemma SanitizeLowersLetters(word: string)
    requires forall i :: 0 <= i < |word| ==> 'A' <= word[i] <= 'Z'
    ensures |SanitizeSlug(word)| == |word|
    ensures forall i :: 0 <= i < |word| ==> SanitizeSlug(word)[i] == LowerChar(word[i])
  {
    TrimNoWhitespace(word);
    FilterKeepsAll(ToLower(word), IsSlugChar);
  }

  /** No upper-case ASCII letter. */
  predicate NoUpper(s: string) {
    forall c :: c in s ==> !('A' <= c <= 'Z')
  }

  /** `input.substring(0, 10).toLowerCase().replace(/\s+/g, '-')`. */
  function FallbackSlug(input: string): (slug: string)
    ensures |slug| <= 10
    ensures NoWhitespace(slug)
    ensures NoUpper(slug)
  {
    var head := if |input| <= 10 then input else input[..10];
    LowerHasNoUpper(head);
    HyphenateChars(ToLower(head));
    HyphenateWhitespace(ToLower(head))
  }

  /** A short two-word input becomes the two lower-cased words joined by a
      single '-'. */
  lemma FallbackSlugTwoWords(x: string, w: string, y: string)
    requires |x + w + y| <= 10
    requires NoWhitespace(x) && NoWhitespace(y) && w != [] && IsBlank(w)
    ensures FallbackSlug(x + w + y) == ToLower(x) + "-" + ToLower(y)
  {
    HyphenateTwoWords(x, w, y);
  }

  lemma LowerHasNoUpper(s: string)
    ensures NoUpper(ToLower(s))
  {
    var r := ToLower(s);
    forall c | c in r
      ensures !('A' <= c <= 'Z')
    {
      var j :| 0 <= j < |r| && r[j] == c;
    }
  }

  /** The slug of `generateShortSlug`: the cleaned answer, or the fallback
      when the call failed. Either way it holds no whitespace. */
  function GenerateShortSlug(input: string, answer: Option<string>): (slug: string)
    ensures NoWhitespace(slug)
    ensures answer.Some? ==> forall i :: 0 <= i < |slug| ==> IsSlugChar(slug[i])
    ensures answer.None? ==> |slug| <= 10
  {
    match answer
    case Some(text) => SanitizeSlug(text)
    case None => FallbackSlug(input)
  }

  // summarizeLink

  /** The trimmed answer, or the host name without its first "www." when the
      call failed. */
  function SummarizeLink(hostname: string, answer: Option<string>): (title: string)
    ensures answer.Some? ==> title == Trim(answer.value)
    ensures answer.None? && !Contains(hostname, "www.") ==> title == hostname
  {
    match answer
    case Some(text) => Trim(text)
    case None => ReplaceFirst(hostname, "www.", "")
  }

  lemma SummarizeDropsWww(host: string)
    ensures SummarizeLink("www." + host, None) == host
  {
    ReplaceLeading("www.", "", host);
  }

  // breakdownProject

  const DefaultSteps: seq<string> := [
    "Research more about the topic", "Define initial milestones",
    "Set a clear timeline", "Gather necessary resources",
    "Start initial implementation"]

  /** The parsed step list, or the five default steps when parsing failed. */
  function BreakdownSteps(parsed: Option<seq<string>>): (steps: seq<string>)
    ensures parsed.Some? ==> steps == parsed.value
    ensures parsed.None? ==> |steps| == 5 && forall i :: 0 <= i < 5 ==> !IsBlank(steps[i])
  {
    match parsed
    case Some(s) => s
    case None =>
      assert !IsWhitespace(DefaultSteps[0][0]) && !IsWhitespace(DefaultSteps[1][0]);
      assert !IsWhitespace(DefaultSteps[2][0]) && !IsWhitespace(DefaultSteps[3][0]);
      assert !IsWhitespace(DefaultSteps[4][0]);
      DefaultSteps
  }

  /** The five default steps are pairwise different. */
  lemma DefaultStepsDistinct()
    ensures forall i, j :: 0 <= i < j < |BreakdownSteps(None)| ==> BreakdownSteps(None)[i] != BreakdownSteps(None)[j]
  {
    var d := DefaultSteps;
    assert d[0][0] == 'R' && d[1][0] == 'D' && d[2][0] == 'S' && d[3][0] == 'G' && d[4][0] == 'S';
    assert d[2][1] == 'e' && d[4][1] == 't';
  }

  // smartMapEventsToPara

  /** One entry of the category mapping: the event's id as the model
      numbered it, the category and a reason. */
  datatype EventMapping = EventMapping(id: string, category: ParaCategory, reason: string)

  /** One entry per event, numbered "1".."n", all Areas. */
  function FallbackMappings(events: seq<CalendarEvent>): (r: seq<EventMapping>)
    ensures |r| == |events|
    ensures forall i :: 0 <= i < |r| ==> r[i].category == Areas && r[i].reason == "Defaulting to Areas"
  {
    seq(|events|, i requires 0 <= i < |events| => EventMapping(NatToString(i + 1), Areas, "Defaulting to Areas"))
  }

  /** The fallback ids are distinct and each reads back as its position plus one. */
  lemma FallbackMappingIds(events: seq<CalendarEvent>)
    ensures var r := FallbackMappings(events);
      (forall i :: 0 <= i < |r| ==> ParseDigits(r[i].id) == i + 1)
      && (forall i, j :: 0 <= i < j < |r| ==> r[i].id != r[j].id)
  {
    FallbackIdsParse(events);
    FallbackIdsDistinct(events);
  }

  lemma FallbackIdsParse(events: seq<CalendarEvent>)
    ensures forall i :: 0 <= i < |events| ==> ParseDigits(FallbackMappings(events)[i].id) == i + 1
  {
    forall i | 0 <= i < |events|
      ensures ParseDigits(FallbackMappings(events)[i].id) == i + 1
    {
      FallbackId(events, i);
      NatToStringRoundTrip(i + 1);
    }
  }

  lemma FallbackIdsDistinct(events: seq<CalendarEvent>)
    ensures forall i, j :: 0 <= i < j < |events| ==> FallbackMappings(events)[i].id != FallbackMappings(events)[j].id
  {
    forall i, j | 0 <= i < j < |events|
      ensures FallbackMappings(events)[i].id != FallbackMappings(events)[j].id
    {
      FallbackId(events, i);
      FallbackId(events, j);
      NatToStringInjective(i + 1, j + 1);
    }
  }

  lemma FallbackId(events: seq<CalendarEvent>, i: nat)
    requires i < |events|
    ensures FallbackMappings(events)[i].id == NatToString(i + 1)
  {
  }

  /** The parsed mapping, or the fallback. */
  function MapEvents(events: seq<CalendarEvent>, parsed: Option<seq<EventMapping>>): (r: seq<EventMapping>)
    ensures parsed.Some? ==> r == parsed.value
    ensures parsed.None? ==> r == FallbackMappings(events)
  {
    match parsed
    case Some(m) => m
    case None => FallbackMappings(events)
  }

  // generateSmartMockEvents

  /** An event as the model writes it, before it is numbered. */
  datatype EventDraft = EventDraft(summary: string, start: string, end: string, location: Option<string>)

  /** `data.map((d, i) => ({ ...d, id: String(i + 1) }))`, or no events when
      parsing failed. */
  function GeneratedEvents(parsed: Option<seq<EventDraft>>): (events: seq<CalendarEvent>)
    ensures parsed.None? ==> events == []
    ensures parsed.Some? ==> |events| == |parsed.value|
    ensures parsed.Some? ==> forall i :: 0 <= i < |events| ==>
      events[i].id == NatToString(i + 1)
      && events[i].summary == parsed.value[i].summary && events[i].start == parsed.value[i].start
      && events[i].end == parsed.value[i].end && events[i].location == parsed.value[i].location
  {
    match parsed
    case None => []
    case Some(ds) =>
      seq(|ds|, i requires 0 <= i < |ds| =>
        CalendarEvent(NatToString(i + 1), ds[i].summary, ds[i].start, ds[i].end, ds[i].location))
  }

  /** A generated event and the fallback mapping entry at the same position
      carry the same id, so every event finds its fallback category. */
  lemma FallbackMatchesEvents(parsed: seq<EventDraft>)
    ensures var events := GeneratedEvents(Some(parsed));
      forall i :: 0 <= i < |events| ==> FallbackMappings(events)[i].id == events[i].id
  {
  }
}
