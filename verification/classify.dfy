/** The alias-phrase classifier of `check_website`: every element text of a
    rendered page is upper-cased and searched, school by school and term by
    term, for "<TERM>: CLOSED" and "<TERM>: 2-HOUR DELAY". */
module Classify {
  import opened Text
  import opened Registry

  datatype Option<T> = None | Some(value: T)

  /** One entry appended to the closings list. */
  datatype Tag = Closed(school: string) | Delayed(school: string)

  const ClosedSuffix: string := ": CLOSED"
  const DelayedSuffix: string := ": 2-HOUR DELAY"
  const DelayMarker: string := " (DELAY)"

  /** The string the source appends for a tag. */
  function Render(t: Tag): string
  {
    match t
    case Closed(s) => s
    case Delayed(s) => s + DelayMarker
  }

  /** The entries appended for a sequence of tags, in order. */
  function RenderAll(ts: seq<Tag>): seq<string>
  {
    seq(|ts|, k requires 0 <= k < |ts| => Render(ts[k]))
  }

  function ClosedPhrase(term: string): string
  {
    Upper(term) + ClosedSuffix
  }

  function DelayPhrase(term: string): string
  {
    Upper(term) + DelayedSuffix
  }

  /** The alias loop for one school over upper-cased element text: the
      first term that is mentioned together with one of its phrases decides,
      and CLOSED is checked before the delay. */
  function MatchTerms(text: string, school: string, terms: seq<string>): Option<Tag>
    decreases |terms|
  {
    if |terms| == 0 then None
    else
      var term := terms[0];
      if Contains(text, Upper(term)) then
        if Contains(text, ClosedPhrase(term)) then Some(Closed(school))
        else if Contains(text, DelayPhrase(term)) then Some(Delayed(school))
        else MatchTerms(text, school, terms[1..])
      else MatchTerms(text, school, terms[1..])
  }

  /** `term` is followed in the text by one of the two status phrases. */
  predicate Hit(text: string, term: string)
  {
    Contains(text, ClosedPhrase(term)) || Contains(text, DelayPhrase(term))
  }

  /** The tag a hitting term yields on its own. */
  function Verdict(text: string, school: string, term: string): Tag
  {
    if Contains(text, ClosedPhrase(term)) then Closed(school) else Delayed(school)
  }

  /** Term `k` is the first term of the list that hits. */
  ghost predicate Decides(text: string, terms: seq<string>, k: int)
  {
    0 <= k < |terms| && Hit(text, terms[k]) && forall j :: 0 <= j < k ==> !Hit(text, terms[j])
  }

  /** The mention test guarding the phrase tests never changes the outcome:
      a phrase that occurs contains the term itself. */
  lemma HitMentions(text: string, term: string)
    requires Hit(text, term)
    ensures Contains(text, Upper(term))
  {
    if Contains(text, ClosedPhrase(term)) {
      ContainsPrefixOfPattern(text, Upper(term), ClosedSuffix);
    } else {
      ContainsPrefixOfPattern(text, Upper(term), DelayedSuffix);
    }
  }

  /** The alias loop yields nothing exactly when no term of the school hits;
      otherwise the first hitting term decides, CLOSED before DELAY. */
  lemma {:induction false} MatchTermsSpec(text: string, school: string, terms: seq<string>)
    ensures MatchTerms(text, school, terms).None? <==> forall k :: 0 <= k < |terms| ==> !Hit(text, terms[k])
    ensures forall k :: Decides(text, terms, k) ==> MatchTerms(text, school, terms) == Some(Verdict(text, school, terms[k]))
    decreases |terms|
  {
    if |terms| > 0 {
      MatchTermsSpec(text, school, terms[1..]);
      if Hit(text, terms[0]) {
        HitMentions(text, terms[0]);
        forall k | Decides(text, terms, k)
          ensures MatchTerms(text, school, terms) == Some(Verdict(text, school, terms[k]))
        {
          assert k == 0;
        }
      } else {
        forall k | Decides(text, terms, k)
          ensures MatchTerms(text, school, terms) == Some(Verdict(text, school, terms[k]))
        {
          assert Decides(text, terms[1..], k - 1);
        }
        if forall k :: 0 <= k < |terms[1..]| ==> !Hit(text, terms[1..][k]) {
          forall k | 0 <= k < |terms| ensures !Hit(text, terms[k]) {
            if k > 0 {
              assert terms[k] == terms[1..][k - 1];
            }
          }
        }
      }
    }
  }

  /** Whatever the alias loop yields is a tag for the school it was run for. */
  lemma {:induction false} MatchTermsSchool(text: string, school: string, terms: seq<string>)
    ensures MatchTerms(text, school, terms).Some? ==> MatchTerms(text, school, terms).value.school == school
    decreases |terms|
  {
    if |terms| > 0 {
      MatchTermsSchool(text, school, terms[1..]);
    }
  }

  /** The entries one upper-cased element text contributes, in registry order:
      at most one per school. */
  function TagsFor(text: string, reg: seq<School>): seq<Tag>
    decreases |reg|
  {
    if |reg| == 0 then []
    else
      var here := match MatchTerms(text, reg[0].name, reg[0].terms)
        case Some(t) => [t]
        case None => [];
      here + TagsFor(text, reg[1..])
  }

  /** An element's entries: its text is upper-cased before any comparison. */
  function ElementTags(raw: string, reg: seq<School>): seq<Tag>
  {
    TagsFor(Upper(raw), reg)
  }

  /** A tag appears in an element's entries exactly when some school of the
      registry, under its own name, yields it through the alias loop. */
  lemma {:induction false} TagsForIff(text: string, reg: seq<School>, t: Tag)
    ensures t in TagsFor(text, reg) <==>
      exists i :: 0 <= i < |reg| && reg[i].name == t.school && MatchTerms(text, reg[i].name, reg[i].terms) == Some(t)
    decreases |reg|
  {
    if |reg| > 0 {
      TagsForIff(text, reg[1..], t);
      MatchTermsSchool(text, reg[0].name, reg[0].terms);
      if exists i :: 0 <= i < |reg| && reg[i].name == t.school && MatchTerms(text, reg[i].name, reg[i].terms) == Some(t) {
        var i :| 0 <= i < |reg| && reg[i].name == t.school && MatchTerms(text, reg[i].name, reg[i].terms) == Some(t);
        if i > 0 {
          assert reg[1..][i - 1] == reg[i];
        }
      }
    }
  }

  /** Every tag of an element names a school of the registry, and no school
      contributes twice: the `break` ends that school's alias loop. */
  lemma {:induction false} TagsForOnePerSchool(text: string, reg: seq<School>)
    requires DistinctNames(reg)
    ensures forall t :: t in TagsFor(text, reg) ==> t.school in Names(reg)
    ensures forall a, b :: 0 <= a < b < |TagsFor(text, reg)| ==> TagsFor(text, reg)[a].school != TagsFor(text, reg)[b].school
    decreases |reg|
  {
    forall t | t in TagsFor(text, reg) ensures t.school in Names(reg) {
      TagsForIff(text, reg, t);
    }
    if |reg| > 0 {
      var rest := TagsFor(text, reg[1..]);
      TagsForOnePerSchool(text, reg[1..]);
      MatchTermsSchool(text, reg[0].name, reg[0].terms);
      forall t | t in rest ensures t.school != reg[0].name {
        var n := t.school;
        assert n in Names(reg[1..]);
        var i :| 0 <= i < |reg[1..]| && reg[1..][i].name == n;
        assert reg[i + 1].name == n;
      }
    }
  }

  /** An element mentioning a school, but with neither phrase for any of its
      terms, yields no entry for that school. */
  lemma MentionWithoutPhraseYieldsNothing(raw: string, reg: seq<School>, i: int)
    requires DistinctNames(reg)
    requires 0 <= i < |reg|
    requires forall k :: 0 <= k < |reg[i].terms| ==> !Hit(Upper(raw), reg[i].terms[k])
    ensures forall t :: t in ElementTags(raw, reg) ==> t.school != reg[i].name
  {
    var text := Upper(raw);
    MatchTermsSpec(text, reg[i].name, reg[i].terms);
    forall t | t in ElementTags(raw, reg) ensures t.school != reg[i].name {
      TagsForIff(text, reg, t);
    }
  }

  /** The deciding term of a school determines that school's one entry in the
      element: CLOSED if its closing phrase occurs, the delay form otherwise,
      whatever later terms say. */
  lemma FirstHitDecides(raw: string, reg: seq<School>, i: int, k: int)
    requires DistinctNames(reg)
    requires 0 <= i < |reg|
    requires Decides(Upper(raw), reg[i].terms, k)
    ensures Verdict(Upper(raw), reg[i].name, reg[i].terms[k]) in ElementTags(raw, reg)
    ensures forall t :: t in ElementTags(raw, reg) && t.school == reg[i].name ==>
      t == Verdict(Upper(raw), reg[i].name, reg[i].terms[k])
  {
    var text := Upper(raw);
    var v := Verdict(text, reg[i].name, reg[i].terms[k]);
    MatchTermsSpec(text, reg[i].name, reg[i].terms);
    TagsForIff(text, reg, v);
    forall t | t in ElementTags(raw, reg) && t.school == reg[i].name ensures t == v {
      TagsForIff(text, reg, t);
      var j :| 0 <= j < |reg| && reg[j].name == t.school && MatchTerms(text, reg[j].name, reg[j].terms) == Some(t);
      assert j == i;
    }
  }

  /** Two consequences of the order of the tests: for one term, CLOSED is
      checked before the delay; across terms, an earlier term's delay wins
      over a later term's closing. */
  lemma PhraseOrder(raw: string, reg: seq<School>, i: int, k: int)
    requires DistinctNames(reg)
    requires 0 <= i < |reg|
    requires Decides(Upper(raw), reg[i].terms, k)
    ensures Contains(Upper(raw), ClosedPhrase(reg[i].terms[k])) ==>
      Closed(reg[i].name) in ElementTags(raw, reg) && Delayed(reg[i].name) !in ElementTags(raw, reg)
    ensures !Contains(Upper(raw), ClosedPhrase(reg[i].terms[k])) ==>
      Delayed(reg[i].name) in ElementTags(raw, reg) && Closed(reg[i].name) !in ElementTags(raw, reg)
  {
    FirstHitDecides(raw, reg, i, k);
  }

  /** Matching ignores the case of the page text. */
  lemma ElementTagsIgnoreCase(raw1: string, raw2: string, reg: seq<School>)
    requires Upper(raw1) == Upper(raw2)
    ensures ElementTags(raw1, reg) == ElementTags(raw2, reg)
  {
  }

  /** Classifying already upper-cased text gives the same entries. */
  lemma ElementTagsOfUpper(raw: string, reg: seq<School>)
    ensures ElementTags(Upper(raw), reg) == ElementTags(raw, reg)
  {
    UpperIdempotent(raw);
  }

  /** All entries of a page, element by element. */
  function PageTags(elements: seq<string>, reg: seq<School>): seq<Tag>
    decreases |elements|
  {
    if |elements| == 0 then [] else ElementTags(elements[0], reg) + PageTags(elements[1..], reg)
  }

  lemma {:induction false} PageTagsIff(elements: seq<string>, reg: seq<School>, t: Tag)
    ensures t in PageTags(elements, reg) <==> exists k :: 0 <= k < |elements| && t in ElementTags(elements[k], reg)
    decreases |elements|
  {
    if |elements| > 0 {
      PageTagsIff(elements[1..], reg, t);
      if exists k :: 0 <= k < |elements| && t in ElementTags(elements[k], reg) {
        var k :| 0 <= k < |elements| && t in ElementTags(elements[k], reg);
        if k > 0 {
          assert elements[1..][k - 1] == elements[k];
        }
      }
    }
  }

  /** The outcome of fetching and parsing a page: the texts of the candidate
      elements, or an exception raised anywhere on the way. */
  datatype Fetch = Rendered(elements: seq<string>) | Failed

  /** An entry is a canonical school name, or one followed by " (DELAY)". */
  ghost predicate WellFormedEntry(e: string, reg: seq<School>)
  {
    exists i :: 0 <= i < |reg| && (e == reg[i].name || e == reg[i].name + DelayMarker)
  }

  /** The de-duplicated closings of one source. */
  function CheckWebsite(f: Fetch, reg: seq<School>): set<string>
  {
    match f
    case Failed => {}
    case Rendered(elements) => set t | t in PageTags(elements, reg) :: Render(t)
  }

  lemma MarkedNameNotPlain(n: string)
    ensures !PlainName(n + DelayMarker)
  {
    assert (n + DelayMarker)[|n| + 1] == '(';
  }

  /** The plain and delay renderings never collide for registry names. */
  lemma RenderInjective(t1: Tag, t2: Tag, reg: seq<School>)
    requires Valid(reg)
    requires t1.school in Names(reg) && t2.school in Names(reg)
    requires Render(t1) == Render(t2)
    ensures t1 == t2
  {
    if t1.Closed? && t2.Delayed? {
      MarkedNameNotPlain(t2.school);
      assert false;
    } else if t1.Delayed? && t2.Closed? {
      MarkedNameNotPlain(t1.school);
      assert false;
    } else if t1.Delayed? && t2.Delayed? {
      assert t1.school == Render(t1)[..|Render(t1)| - |DelayMarker|];
      assert t2.school == Render(t2)[..|Render(t2)| - |DelayMarker|];
    }
  }

  /** What one source reports: nothing when fetching or parsing failed;
      otherwise only well-formed entries, a school reported as closed exactly
      when some element yields its closed tag, and as delayed exactly when
      some element yields its delay tag. */
  lemma CheckWebsiteSpec(f: Fetch, reg: seq<School>)
    requires Valid(reg)
    ensures f.Failed? ==> CheckWebsite(f, reg) == {}
    ensures forall e :: e in CheckWebsite(f, reg) ==> WellFormedEntry(e, reg)
    ensures f.Rendered? ==> forall t: Tag :: t.school in Names(reg) ==>
      (Render(t) in CheckWebsite(f, reg) <==> exists k :: 0 <= k < |f.elements| && t in ElementTags(f.elements[k], reg))
  {
    if f.Rendered? {
      var tags := PageTags(f.elements, reg);
      forall t | t in tags ensures t.school in Names(reg) {
        PageTagsIff(f.elements, reg, t);
        var k :| 0 <= k < |f.elements| && t in ElementTags(f.elements[k], reg);
        TagsForOnePerSchool(Upper(f.elements[k]), reg);
      }
      forall e | e in CheckWebsite(f, reg) ensures WellFormedEntry(e, reg) {
        var t :| t in tags && Render(t) == e;
        var i :| 0 <= i < |reg| && reg[i].name == t.school;
      }
      forall t: Tag | t.school in Names(reg)
        ensures Render(t) in CheckWebsite(f, reg) <==> exists k :: 0 <= k < |f.elements| && t in ElementTags(f.elements[k], reg)
      {
        PageTagsIff(f.elements, reg, t);
        if Render(t) in CheckWebsite(f, reg) {
          var u :| u in tags && Render(u) == Render(t);
          RenderInjective(u, t, reg);
        }
      }
    }
  }

  lemma RenderAllAppend(a: seq<Tag>, b: seq<Tag>)
    ensures RenderAll(a + b) == RenderAll(a) + RenderAll(b)
  {
  }

  /** The rendered entry list the alias loop appends for one school. */
  function Appended(m: Option<Tag>): seq<string>
  {
    match m
    case Some(t) => [Render(t)]
    case None => []
  }

  /** One school's alias loop over upper-cased element text, with the
      `break` after the first closing or delay phrase. */
  method ScanSchool(text: string, school: School) returns (appended: seq<string>)
    ensures appended == Appended(MatchTerms(text, school.name, school.terms))
  {
    appended := [];
    var k := 0;
    while k < |school.terms|
      invariant 0 <= k <= |school.terms|
      invariant MatchTerms(text, school.name, school.terms[k..]) == MatchTerms(text, school.name, school.terms)
      invariant appended == []
    {
      var term := Upper(school.terms[k]);
      if Contains(text, term) {
        if Contains(text, term + ClosedSuffix) {
          appended := appended + [school.name];
          break;
        }
        if Contains(text, term + DelayedSuffix) {
          appended := appended + [school.name + DelayMarker];
          break;
        }
      }
      assert school.terms[k..][1..] == school.terms[k + 1..];
      k := k + 1;
    }
  }

  /** All schools, in registry order, over one element's text. */
  method ScanElement(raw: string, reg: seq<School>) returns (appended: seq<string>)
    ensures appended == RenderAll(ElementTags(raw, reg))
  {
    var text := Upper(raw);
    appended := [];
    var s := 0;
    while s < |reg|
      invariant 0 <= s <= |reg|
      invariant appended + RenderAll(TagsFor(text, reg[s..])) == RenderAll(TagsFor(text, reg))
    {
      var entry := ScanSchool(text, reg[s]);
      ghost var here := match MatchTerms(text, reg[s].name, reg[s].terms)
        case Some(t) => [t]
        case None => [];
      assert reg[s..][1..] == reg[s + 1..];
      assert TagsFor(text, reg[s..]) == here + TagsFor(text, reg[s + 1..]);
      RenderAllAppend(here, TagsFor(text, reg[s + 1..]));
      appended := appended + entry;
      s := s + 1;
    }
  }

  /** `check_website` after parsing, loop for loop: the entries of every
      element in page order, before de-duplication. */
  method CollectClosings(elements: seq<string>, reg: seq<School>) returns (closings: seq<string>)
    ensures closings == RenderAll(PageTags(elements, reg))
    ensures (set e | e in closings) == CheckWebsite(Rendered(elements), reg)
  {
    closings := [];
    var e := 0;
    while e < |elements|
      invariant 0 <= e <= |elements|
      invariant closings + RenderAll(PageTags(elements[e..], reg)) == RenderAll(PageTags(elements, reg))
    {
      var entries := ScanElement(elements[e], reg);
      assert elements[e..][1..] == elements[e + 1..];
      RenderAllAppend(ElementTags(elements[e], reg), PageTags(elements[e + 1..], reg));
      closings := closings + entries;
      e := e + 1;
    }
    DedupedEntries(PageTags(elements, reg));
  }

  /** `list(set(...))`: the distinct entries of a rendered tag list are the
      renderings of its distinct tags. */
  lemma DedupedEntries(ts: seq<Tag>)
    ensures (set e | e in RenderAll(ts)) == (set t | t in ts :: Render(t))
  {
    forall e | e in RenderAll(ts) ensures e in (set t | t in ts :: Render(t)) {
      var k :| 0 <= k < |ts| && RenderAll(ts)[k] == e;
      assert ts[k] in ts;
    }
    forall t | t in ts ensures Render(t) in RenderAll(ts) {
      var k :| 0 <= k < |ts| && ts[k] == t;
      assert RenderAll(ts)[k] == Render(t);
    }
  }
}
