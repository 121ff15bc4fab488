/** One iteration of the polling loop in `main`: check both sources, write
    the status token, announce what is new. */
module Monitor {
  import opened Text
  import opened Registry
  import opened Classify
  import opened Status
  import opened Dedup

  /** What one cycle produces: the token written to the status file, the
      closings announced, and the notified set carried to the next cycle. */
  datatype Outcome = Outcome(token: Token, announced: set<string>, notified: set<string>)

  /** The closings detected by both sources together (`set(a + b)`). */
  function AllClosings(reg: seq<School>, wkbn: Fetch, wfmj: Fetch): set<string>
  {
    CheckWebsite(wkbn, reg) + CheckWebsite(wfmj, reg)
  }

  /** One pass of the inner loop of `main`, for a registry (the program runs
      it with `Schools`), the two sources' fetch outcomes and the notified set. */
  function Cycle(reg: seq<School>, wkbn: Fetch, wfmj: Fetch, notified: set<string>): Outcome
  {
    var all := AllClosings(reg, wkbn, wfmj);
    var step := DedupStep(all, notified);
    Outcome(ChooseToken(all), step.announced, step.notified)
  }

  /** The token is CLOSED exactly when either source found a closing or a
      delay, NONE otherwise, never DELAY; what is announced is exactly the
      detected entries not yet notified, each a watched school name or that
      name with " (DELAY)"; and the notified set absorbs everything detected. */
  lemma CycleSpec(reg: seq<School>, wkbn: Fetch, wfmj: Fetch, notified: set<string>)
    requires Valid(reg)
    ensures Cycle(reg, wkbn, wfmj, notified).token == ClosedToken <==>
      CheckWebsite(wkbn, reg) != {} || CheckWebsite(wfmj, reg) != {}
    ensures Cycle(reg, wkbn, wfmj, notified).token == NoneToken <==>
      CheckWebsite(wkbn, reg) == {} && CheckWebsite(wfmj, reg) == {}
    ensures Cycle(reg, wkbn, wfmj, notified).token != DelayToken
    ensures forall e :: e in Cycle(reg, wkbn, wfmj, notified).announced <==>
      (e in CheckWebsite(wkbn, reg) || e in CheckWebsite(wfmj, reg)) && e !in notified
    ensures forall e :: e in Cycle(reg, wkbn, wfmj, notified).announced ==> WellFormedEntry(e, reg)
    ensures Cycle(reg, wkbn, wfmj, notified).notified ==
      notified + CheckWebsite(wkbn, reg) + CheckWebsite(wfmj, reg)
  {
    var a, b := CheckWebsite(wkbn, reg), CheckWebsite(wfmj, reg);
    var r := Cycle(reg, wkbn, wfmj, notified);
    assert AllClosings(reg, wkbn, wfmj) == a + b;
    forall e | e in r.announced ensures WellFormedEntry(e, reg) {
      CheckWebsiteSpec(wkbn, reg);
      CheckWebsiteSpec(wfmj, reg);
    }
  }

  /** A school closed on one source is reported CLOSED, whatever the other
      source returned or whether it failed. */
  lemma OneSourceSuffices(reg: seq<School>, wkbn: Fetch, wfmj: Fetch, notified: set<string>, t: Tag, k: int)
    requires Valid(reg)
    requires wkbn.Rendered? && 0 <= k < |wkbn.elements| && t in ElementTags(wkbn.elements[k], reg)
    ensures Render(t) in AllClosings(reg, wkbn, wfmj)
    ensures Cycle(reg, wkbn, wfmj, notified).token == ClosedToken
  {
    TagsForOnePerSchool(Upper(wkbn.elements[k]), reg);
    CheckWebsiteSpec(wkbn, reg);
  }

  /** When both fetches fail, the cycle still completes: it writes NONE,
      announces nothing and keeps the notified set. */
  lemma BothSourcesFailing(reg: seq<School>, notified: set<string>)
    ensures Cycle(reg, Failed, Failed, notified) == Outcome(NoneToken, {}, notified)
  {
  }

  /** The two sources play symmetric roles. */
  lemma SourcesCommute(reg: seq<School>, wkbn: Fetch, wfmj: Fetch, notified: set<string>)
    ensures Cycle(reg, wkbn, wfmj, notified) == Cycle(reg, wfmj, wkbn, notified)
  {
  }

  /** A second cycle that sees the same pages announces nothing. */
  lemma RepeatedCycleAnnouncesNothing(reg: seq<School>, wkbn: Fetch, wfmj: Fetch, notified: set<string>)
    ensures Cycle(reg, wkbn, wfmj, Cycle(reg, wkbn, wfmj, notified).notified).announced == {}
    ensures Cycle(reg, wkbn, wfmj, Cycle(reg, wkbn, wfmj, notified).notified).notified
      == Cycle(reg, wkbn, wfmj, notified).notified
  {
    DedupIdempotent(AllClosings(reg, wkbn, wfmj), notified);
  }
}
