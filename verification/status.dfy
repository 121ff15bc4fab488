/** The token written to the status file each cycle, as `main` chooses it. */
module Status {
  import opened Text
  import opened Registry
  import opened Classify

  datatype Token = ClosedToken | DelayToken | NoneToken

  /** The literal written to the status file. */
  function TokenText(t: Token): string
  {
    match t
    case ClosedToken => "CLOSED"
    case DelayToken => "DELAY"
    case NoneToken => "NONE"
  }

  const DelayPattern: string := "2-HOUR DELAY"

  /** The branch chain of `main` as written: the delay test runs only once
      the set is known to be empty, so it can never succeed. */
  function ChooseToken(all: set<string>): (t: Token)
    ensures t == ClosedToken <==> all != {}
    ensures t == NoneToken <==> all == {}
    ensures t != DelayToken
  {
    if all != {} then ClosedToken
    else if exists e :: e in all && Contains(e, DelayPattern) then DelayToken
    else NoneToken
  }

  /** The literal that ends up in the status file. */
  lemma WrittenToken(all: set<string>)
    ensures TokenText(ChooseToken(all)) == (if all != {} then "CLOSED" else "NONE")
    ensures TokenText(ChooseToken(all)) != "DELAY"
  {
  }

  /** Even with the emptiness test removed, the delay test could not fire on
      what the sources return: a delay entry is spelled "<SCHOOL> (DELAY)",
      and no entry contains the digit of "2-HOUR DELAY". */
  lemma EntryNeverSpellsDelay(e: string, reg: seq<School>)
    requires Valid(reg)
    requires WellFormedEntry(e, reg)
    ensures !Contains(e, DelayPattern)
  {
    var i :| 0 <= i < |reg| && (e == reg[i].name || e == reg[i].name + DelayMarker);
    assert PlainName(reg[i].name);
    if Contains(e, DelayPattern) {
      assert DelayPattern[0] == '2';
      ContainsChars(e, DelayPattern, '2');
      assert false;
    }
  }

  /** Hence over any union of source results the delay test is false. */
  lemma DelayTestNeverHolds(wkbn: Fetch, wfmj: Fetch, reg: seq<School>)
    requires Valid(reg)
    ensures !exists e :: e in CheckWebsite(wkbn, reg) + CheckWebsite(wfmj, reg) && Contains(e, DelayPattern)
  {
    CheckWebsiteSpec(wkbn, reg);
    CheckWebsiteSpec(wfmj, reg);
    forall e | e in CheckWebsite(wkbn, reg) + CheckWebsite(wfmj, reg)
      ensures !Contains(e, DelayPattern)
    {
      EntryNeverSpellsDelay(e, reg);
    }
  }
}
