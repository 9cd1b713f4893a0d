/**
 * The process-wide upload progress registry (`uploadProgress`), the rounded
 * percentage the progress stream reports, and one sampling step of that
 * stream.
 *
 * The interleaving of the background row loop with the periodic sampler is
 * written as explicit event sequences (`Event`, `Run`), so that what happens
 * when the sampler ends the stream before the loop is done can be stated.
 */
module UploadProgress {
  import opened Rows

  /** One registry entry: `{ total, processed }`. */
  datatype Progress = Progress(total: nat, processed: nat)

  /**
   * `Math.round(processed / total * 100)`, computed exactly (half rounds up);
   * None stands for NaN, the value of `0 / 0`.
   */
  function Percent(p: Progress): (r: Option<int>)
    ensures r.None? <==> p.total == 0
    ensures r.Some? ==> 2 * p.total * r.value <= 200 * p.processed + p.total < 2 * p.total * (r.value + 1)
  {
    if p.total == 0 then None
    else
      var q := (200 * p.processed + p.total) / (2 * p.total);
      assert 2 * p.total * q <= 200 * p.processed + p.total < 2 * p.total * (q + 1);
      Some(q)
  }

  /** The stream ends exactly when the percentage is at least 100 (a NaN comparison is false). */
  predicate Ends(p: Progress) {
    Percent(p).Some? && Percent(p).value >= 100
  }

  /** With `0 <= processed <= total` and `total > 0` the percentage lies in 0..100. */
  lemma PercentInRange(p: Progress)
    requires 0 < p.total && p.processed <= p.total
    ensures Percent(p).Some? && 0 <= Percent(p).value <= 100
  {
    var q := Percent(p).value;
    if q > 100 {
      assert 2 * p.total * q >= 2 * p.total * 101 by { MulMono(2 * p.total, 101, q); }
      assert false;
    }
  }

  lemma MulMono(a: nat, x: int, y: int)
    requires x <= y
    ensures a * x <= a * y
  {
  }

  /** The stream ends exactly when `200 * processed >= 199 * total`, which never holds for `total == 0`. */
  lemma EndsIff(p: Progress)
    ensures Ends(p) <==> p.total > 0 && 200 * p.processed >= 199 * p.total
  {
    if p.total > 0 {
      var q := Percent(p).value;
      var t := p.total;
      if q >= 100 {
        MulMono(2 * t, 100, q);
      } else {
        MulMono(2 * t, q + 1, 100);
      }
    }
  }

  /** From 200 rows upwards the stream already ends one row before the last. */
  lemma EndsOneRowEarly(t: nat)
    requires t >= 200
    ensures Ends(Progress(t, t - 1))
  {
    EndsIff(Progress(t, t - 1));
  }

  /** Below 200 rows the stream ends only once every row is processed. */
  lemma EndsOnlyWhenDone(t: nat, p: nat)
    requires 0 < t < 200 && p <= t
    ensures Ends(Progress(t, p)) <==> p == t
  {
    EndsIff(Progress(t, p));
  }

  /** What one sampling step writes to the stream. */
  datatype Sample =
    | Silent                                  // no entry for the type: nothing is written
    | Data(percent: Option<int>, ended: bool) // `data: <percent>`, and whether the stream ended

  /** The registry `uploadProgress`, keyed by upload type. */
  class Registry {
    var entries: map<string, Progress>

    constructor ()
      ensures entries == map[]
    {
      entries := map[];
    }

    /** An upload starts: its entry becomes `{ total, processed: 0 }`, replacing any earlier one. */
    method Start(kind: string, total: nat)
      modifies this
      ensures entries == old(entries)[kind := Progress(total, 0)]
    {
      entries := entries[kind := Progress(total, 0)];
    }

    /**
     * `uploadProgress[kind].processed++`; `ok` is false when the entry is
     * gone, where the source throws a TypeError.
     */
    method Increment(kind: string) returns (ok: bool)
      modifies this
      ensures ok <==> kind in old(entries)
      ensures entries == if ok then old(entries)[kind := old(entries)[kind].(processed := old(entries)[kind].processed + 1)]
                         else old(entries)
    {
      ok := kind in entries;
      if ok {
        var p := entries[kind];
        entries := entries[kind := p.(processed := p.processed + 1)];
      }
    }

    /** One sampling step of the progress stream for `kind`; an ended stream evicts the entry. */
    method SampleOnce(kind: string) returns (s: Sample)
      modifies this
      ensures kind !in old(entries) ==> s == Silent && entries == old(entries)
      ensures kind in old(entries) ==> s == Data(Percent(old(entries)[kind]), Ends(old(entries)[kind]))
      ensures entries == if kind in old(entries) && Ends(old(entries)[kind]) then old(entries) - {kind}
                         else old(entries)
    {
      if kind !in entries {
        return Silent;
      }
      var p := entries[kind];
      var percent := Percent(p);
      var ended := percent.Some? && percent.value >= 100;
      if ended {
        entries := entries - {kind};
      }
      s := Data(percent, ended);
    }
  }

  /*
   * The background loop and the sampler of one upload of `t` rows, as a
   * sequence of events. `RowDone` is one handler finishing followed by the
   * loop's increment; `Tick` is one sampling step.
   */

  datatype Event = RowDone | Tick

  /** The rule by which the sampler ends the stream. */
  datatype Rule =
    | Rounded   // percentage at least 100, as the route decides
    | Complete  // every row processed

  predicate Stops(rule: Rule, p: Progress) {
    match rule
    case Rounded => Ends(p)
    case Complete => p.processed >= p.total
  }

  /**
   * The registry entry of the upload, how many row handlers have run, whether
   * the loop is still going, and whether the stream is still open.
   */
  datatype World = World(entry: Option<Progress>, handled: nat, loopAlive: bool, streamOpen: bool)

  /** Right after the entry is written: no row handled, the loop runs when there is a row. */
  function Begin(t: nat): World {
    World(Some(Progress(t, 0)), 0, t > 0, true)
  }

  /**
   * One event on one upload's entry. `RowDone` changes the entry as
   * `Registry.Increment` does (one more processed row; a missing entry makes
   * the increment fail, which ends the loop); `Tick` changes it as
   * `Registry.SampleOnce` does (eviction exactly when the sampler's rule holds,
   * `Ends` for `Rounded`). The two are kept in agreement by construction.
   */
  function Step(rule: Rule, t: nat, w: World, e: Event): World {
    match e
    case RowDone =>
      if !w.loopAlive then w
      else if w.entry.None? then
        // the handler ran, then the increment threw: the loop is over
        w.(handled := w.handled + 1, loopAlive := false)
      else
        w.(handled := w.handled + 1,
           entry := Some(w.entry.value.(processed := w.entry.value.processed + 1)),
           loopAlive := w.handled + 1 < t)
    case Tick =>
      if w.streamOpen && w.entry.Some? && Stops(rule, w.entry.value) then
        w.(entry := None, streamOpen := false)
      else w
  }

  function Run(rule: Rule, t: nat, w: World, evs: seq<Event>): World
    decreases |evs|
  {
    if evs == [] then w else Run(rule, t, Step(rule, t, w, evs[0]), evs[1..])
  }

  function RowEvents(n: nat): (s: seq<Event>)
    ensures |s| == n && forall i :: 0 <= i < n ==> s[i] == RowDone
  {
    seq(n, _ => RowDone)
  }

  lemma {:induction false} RunAppend(rule: Rule, t: nat, w: World, a: seq<Event>, b: seq<Event>)
    ensures Run(rule, t, w, a + b) == Run(rule, t, Run(rule, t, w, a), b)
    decreases |a|
  {
    if a == [] {
      assert a + b == b;
    } else {
      assert (a + b)[0] == a[0] && (a + b)[1..] == a[1..] + b;
      RunAppend(rule, t, Step(rule, t, w, a[0]), a[1..], b);
    }
  }

  /** With no sampling in between, `n` rows leave the entry at `{ t, n }`. */
  lemma {:induction false} RowsFromBegin(rule: Rule, t: nat, n: nat)
    requires n <= t
    ensures Run(rule, t, Begin(t), RowEvents(n)) == World(Some(Progress(t, n)), n, n < t, true)
  {
    if n > 0 {
      RowsFromBegin(rule, t, n - 1);
      assert RowEvents(n) == RowEvents(n - 1) + [RowDone];
      RunAppend(rule, t, Begin(t), RowEvents(n - 1), [RowDone]);
    }
  }

  /** Once the loop is over, no event handles another row. */
  lemma {:induction false} DeadLoopStays(rule: Rule, t: nat, w: World, evs: seq<Event>)
    requires !w.loopAlive
    ensures Run(rule, t, w, evs).handled == w.handled && !Run(rule, t, w, evs).loopAlive
    decreases |evs|
  {
    if evs != [] {
      DeadLoopStays(rule, t, Step(rule, t, w, evs[0]), evs[1..]);
    }
  }

  /**
   * As written: with 400 rows or more, a sample taken after all but two rows
   * ends the stream and evicts the entry; the next increment throws, and the
   * last row is never handled, whatever happens afterwards.
   */
  lemma RowsLostAsWritten(t: nat, later: seq<Event>)
    requires t >= 400
    ensures var w := Run(Rounded, t, Begin(t), RowEvents(t - 2) + [Tick, RowDone] + later);
            w.handled == t - 1 && !w.loopAlive && !w.streamOpen
  {
    var w0 := Run(Rounded, t, Begin(t), RowEvents(t - 2));
    RowsFromBegin(Rounded, t, t - 2);
    EndsIff(Progress(t, t - 2));
    RunAppend(Rounded, t, Begin(t), RowEvents(t - 2), [Tick, RowDone] + later);
    assert RowEvents(t - 2) + [Tick, RowDone] + later == RowEvents(t - 2) + ([Tick, RowDone] + later);
    var w1 := Step(Rounded, t, w0, Tick);
    var w2 := Step(Rounded, t, w1, RowDone);
    assert w2.handled == t - 1 && !w2.loopAlive && !w2.streamOpen;
    assert Run(Rounded, t, w0, [Tick, RowDone] + later) == Run(Rounded, t, w2, later) by {
      assert ([Tick, RowDone] + later)[1..] == [RowDone] + later;
      assert ([RowDone] + later)[1..] == later;
    }
    DeadLoopStays(Rounded, t, w2, later);
    ClosedStays(Rounded, t, w2, later);
  }

  lemma {:induction false} ClosedStays(rule: Rule, t: nat, w: World, evs: seq<Event>)
    requires !w.streamOpen
    ensures !Run(rule, t, w, evs).streamOpen
    decreases |evs|
  {
    if evs != [] {
      ClosedStays(rule, t, Step(rule, t, w, evs[0]), evs[1..]);
    }
  }

  /** As written: an upload of zero rows never ends its stream (the percentage is NaN). */
  lemma {:induction false} ZeroRowsNeverEnd(evs: seq<Event>)
    ensures Run(Rounded, 0, Begin(0), evs) == Begin(0)
    decreases |evs|
  {
    if evs != [] {
      assert Step(Rounded, 0, Begin(0), evs[0]) == Begin(0);
      ZeroRowsNeverEnd(evs[1..]);
    }
  }

  /** The invariant the corrected sampler keeps. */
  predicate Consistent(t: nat, w: World) {
    && w.handled <= t
    && (w.loopAlive <==> w.handled < t)
    && (w.entry.Some? ==> w.entry.value == Progress(t, w.handled))
    && (w.entry.None? <==> !w.streamOpen)
    && (!w.streamOpen ==> w.handled == t)
  }

  /**
   * Corrected: when the stream ends only once every row is processed, every
   * interleaving handles every row; the loop stops exactly when all rows are
   * handled, and a closed stream means the upload is complete.
   */
  lemma {:induction false} CompleteRuleKeepsRows(t: nat, w: World, evs: seq<Event>)
    requires Consistent(t, w)
    ensures Consistent(t, Run(Complete, t, w, evs))
    decreases |evs|
  {
    if evs != [] {
      var w' := Step(Complete, t, w, evs[0]);
      assert Consistent(t, w');
      CompleteRuleKeepsRows(t, w', evs[1..]);
    }
  }

  lemma CorrectedSamplerCompletes(t: nat, evs: seq<Event>)
    ensures var w := Run(Complete, t, Begin(t), evs);
            (w.loopAlive <==> w.handled < t) && (!w.streamOpen ==> w.handled == t)
  {
    CompleteRuleKeepsRows(t, Begin(t), evs);
  }
}
