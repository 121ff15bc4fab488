/** Announcing only closings not reported before in this process. */
module Dedup {

  /** What one cycle announces, and the notified set it leaves behind. */
  datatype Step = Step(announced: set<string>, notified: set<string>)

  /** `new = all - notified`; the notified set is updated only when
      something new was found. */
  function DedupStep(current: set<string>, notified: set<string>): (r: Step)
    ensures r.announced <= current && r.announced !! notified
    ensures forall e :: e in current && e !in notified ==> e in r.announced
    ensures r.notified == notified + current
  {
    var newOnes := current - notified;
    if newOnes != {} then Step(newOnes, notified + newOnes) else Step(newOnes, notified)
  }

  /** Running a cycle again on the same closings announces nothing and leaves
      the notified set as it was. */
  lemma DedupIdempotent(current: set<string>, notified: set<string>)
    ensures DedupStep(current, DedupStep(current, notified).notified)
      == Step({}, DedupStep(current, notified).notified)
  {
  }

  /** Everything in a sequence of per-cycle sets. */
  function UnionAll(sets: seq<set<string>>): set<string>
    decreases |sets|
  {
    if |sets| == 0 then {} else sets[0] + UnionAll(sets[1..])
  }

  /** The announcements of consecutive cycles and the final notified set. */
  datatype History = History(announced: seq<set<string>>, notified: set<string>)

  /** Consecutive cycles, each detecting `cycles[i]`; started from `{}` this is
      the whole life of the process, whose notified set is never reset. */
  function Run(cycles: seq<set<string>>, notified: set<string>): History
    decreases |cycles|
  {
    if |cycles| == 0 then History([], notified)
    else
      var first := DedupStep(cycles[0], notified);
      var rest := Run(cycles[1..], first.notified);
      History([first.announced] + rest.announced, rest.notified)
  }

  /** Over any run: one announcement per cycle, each a part of that cycle's
      closings; the notified set only grows, ending as everything ever
      detected; and a closing is announced at most once, never again after
      the cycle that first detected it, even if it disappears and returns. */
  lemma {:induction false} RunAnnouncesOnce(cycles: seq<set<string>>, notified: set<string>)
    ensures |Run(cycles, notified).announced| == |cycles|
    ensures Run(cycles, notified).notified == notified + UnionAll(cycles)
    ensures forall i :: 0 <= i < |cycles| ==>
      Run(cycles, notified).announced[i] <= cycles[i] && Run(cycles, notified).announced[i] !! notified
    ensures forall i, j, e :: 0 <= i < j < |cycles| && e in cycles[i] ==> e !in Run(cycles, notified).announced[j]
    ensures UnionAll(Run(cycles, notified).announced) == UnionAll(cycles) - notified
    decreases |cycles|
  {
    if |cycles| > 0 {
      var first := DedupStep(cycles[0], notified);
      var rest := Run(cycles[1..], first.notified);
      var h := Run(cycles, notified);
      RunAnnouncesOnce(cycles[1..], first.notified);
      assert h.announced == [first.announced] + rest.announced;
      forall i | 0 <= i < |cycles|
        ensures h.announced[i] <= cycles[i] && h.announced[i] !! notified
      {
        if i > 0 {
          assert h.announced[i] == rest.announced[i - 1];
          assert cycles[i] == cycles[1..][i - 1];
        }
      }
      forall i, j, e | 0 <= i < j < |cycles| && e in cycles[i]
        ensures e !in h.announced[j]
      {
        assert h.announced[j] == rest.announced[j - 1];
        if i > 0 {
          assert cycles[i] == cycles[1..][i - 1];
        } else {
          assert e in first.notified;
        }
      }
      assert h.announced[1..] == rest.announced;
    }
  }
}
