/** Runs of the table as the rest of the program drives it: the results of the driver go through the
    address filter before they are filed. */
module ScanRounds {
  import opened Wrappers
  import opened Elements
  import opened RelTime
  import opened BssModel
  import opened BssInvariant
  import opened BssRuns
  import opened BssGuarantees
  import opened ScanFiling

  /** The results that the driver gave, and those that were handed on to the table, with the memory that
      each would get. */
  datatype Batch = Batch(env: Env, filter: Option<seq<Octets>>, raw: seq<ScanRes>, handed: seq<ScanRes>,
                         fetch: Time, spares: seq<Bss>)

  /** The lookup in the table applies the filter in force; what is handed on has passed it, in any
      order and selection, and with signal figures worked out anew. */
  ghost predicate HandedOn(b: Batch) {
    && |b.spares| == |b.handed| && (forall a :: b.env.passes(a) <==> Passes(b.filter, a))
    && forall h :: h in b.handed ==> exists r :: r in Filtered(b.filter, b.raw) && h == r.(fields := h.fields)
  }

  datatype Session =
    | Fresh(maxCount: int)
    | Round(prev: Session, batch: Batch, info: ScanInfo, newScan: bool)
    | Candidates(prev: Session, batch: Batch)
    | Other(prev: Session, step: Step)

  function Fed(run: Run, b: Batch, n: nat): Run
    requires n <= |b.handed| == |b.spares|
  {
    if n == 0 then run else Then(Fed(run, b, n - 1), Result(b.env, b.handed[n - 1], b.fetch, b.spares[n - 1]))
  }

  /** A session files results by rounds, and as candidates for a transition between rounds. */
  ghost predicate Production(s: Session) {
    match s
    case Fresh(_) => true
    case Round(prev, batch, _, _) => Production(prev) && HandedOn(batch)
    case Candidates(prev, batch) => Production(prev) && HandedOn(batch)
    case Other(prev, step) => Production(prev) && !step.Result?
  }

  ghost function RunOf(s: Session): Run
    requires Production(s)
  {
    match s
    case Fresh(maxCount) => Begin(maxCount)
    case Round(prev, b, info, newScan) =>
      Then(Fed(Then(RunOf(prev), Start), b, |b.handed|), End(b.env, info, newScan))
    case Candidates(prev, b) => Fed(RunOf(prev), b, |b.handed|)
    case Other(prev, step) => Then(RunOf(prev), step)
  }

  lemma {:induction false} FedPass(run: Run, b: Batch, n: nat)
    requires AllPass(run) && HandedOn(b) && n <= |b.handed|
    ensures AllPass(Fed(run, b, n))
  {
    if n > 0 {
      FedPass(run, b, n - 1);
      var h := b.handed[n - 1];
      assert h in b.handed;
      var r :| r in Filtered(b.filter, b.raw) && h == r.(fields := h.fields);
      FilteredMembers(b.filter, b.raw, r);
    }
  }

  /** Whatever the filter is in turn, every result that comes to the table passes it. */
  lemma {:induction false} SessionsPass(s: Session)
    requires Production(s)
    ensures AllPass(RunOf(s))
  {
    match s
    case Fresh(_) =>
    case Round(prev, b, info, newScan) =>
      SessionsPass(prev);
      FedPass(Then(RunOf(prev), Start), b, |b.handed|);
    case Candidates(prev, b) =>
      SessionsPass(prev);
      FedPass(RunOf(prev), b, |b.handed|);
    case Other(prev, step) =>
      SessionsPass(prev);
  }

  /** So in a session no two entries ever have the same key exactly if no hidden entry is given the name
      of another entry of its address. */
  lemma SessionKeysUnique(s: Session)
    requires Production(s) && Legal(RunOf(s))
    ensures AlwaysUnique(RunOf(s)) <==> NamesApart(RunOf(s))
    ensures AlwaysUnique(RunOf(s)) ==> KeysUnique(After(RunOf(s)))
  {
    SessionsPass(s);
    ReachableKeysUnique(RunOf(s));
  }
}
