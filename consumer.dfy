/**
 * The consumer loop of src/main.py (`consume_data_queue`): it takes radar
 * measurements off the queue, keeps one window of samples per threat id in the
 * dictionary `data_dict`, and writes one summary per window to the data file,
 * either once a second for the windows that have gone quiet for more than ten
 * seconds, or for every remaining window when the shutdown sentinel arrives.
 *
 * Timestamps are whole epoch seconds. The queue is an input sequence of
 * `Step`s, one per pass of the loop, each carrying the clock second read at
 * the top of that pass. The data file, the trace file and the console are
 * sequences the consumer appends to.
 */
module Consumer {
  import opened Summaries

  type ThreatId = int

  /** A decoded radar measurement taken off the queue. */
  datatype Detection = Detection(threatId: ThreatId, speed: int, distance: int)

  /** What one `data_queue.get(timeout=1.0)` gives the loop. */
  datatype Item =
    | Entry(detection: Detection)  // a measurement
    | Sentinel                     // the shutdown marker object
    | Timeout                      // `queue.Empty`: nothing arrived within the timeout
    | Interrupt                    // `KeyboardInterrupt` raised in the consumer

  /** One pass of the `while True` loop: the clock second read at its top and what the queue gave. */
  datatype Step = Step(now: int, item: Item)

  /** One line of the data file, tagged with the threat id of the window it summarises. */
  datatype Record = Record(threatId: ThreatId, summary: Summary)

  /** One trace line: the pass's timestamp and the entry, as printed and as written to the stream file. */
  datatype TraceLine = TraceLine(timestamp: int, entry: Detection)

  /** A window is finished once its newest sample is more than this many seconds old. */
  const QuietPeriod: int := 10

  // ---------------------------------------------------------------------------
  // Windows and their staleness
  // ---------------------------------------------------------------------------

  /** The triple stored for a measurement taken off the queue in second `now`. */
  function SampleOf(now: int, d: Detection): Sample {
    Sample(now, d.speed, d.distance)
  }

  /** The window stored for `t`, or the empty list the dictionary would create for it. */
  function WindowOf(windows: map<ThreatId, seq<Sample>>, t: ThreatId): seq<Sample> {
    if t in windows then windows[t] else []
  }

  /** Every stored window holds at least one sample (what `calculate_summary` needs). */
  predicate WellFormed(windows: map<ThreatId, seq<Sample>>) {
    forall t :: t in windows ==> |windows[t]| > 0
  }

  /** Every key listed in `keys` has a window. */
  predicate AllIn(keys: seq<ThreatId>, windows: map<ThreatId, seq<Sample>>) {
    forall i :: 0 <= i < |keys| ==> keys[i] in windows
  }

  /** `keys` lists exactly the threat ids that have a window. */
  predicate KeysOf(keys: seq<ThreatId>, windows: map<ThreatId, seq<Sample>>) {
    AllIn(keys, windows) && forall t :: t in windows ==> t in keys
  }

  predicate Distinct(s: seq<ThreatId>) {
    forall i, j :: 0 <= i < j < |s| ==> s[i] != s[j]
  }

  /** The newest timestamp of the window is more than `QuietPeriod` seconds before `now`. */
  predicate Stale(w: seq<Sample>, now: int): (r: bool)
    requires |w| > 0
    ensures r <==> forall i :: 0 <= i < |w| ==> now - w[i].timestamp > QuietPeriod
  {
    now - Highest(Timestamps(w)) > QuietPeriod
  }

  /** The threat ids whose windows are stale at `now`. */
  function StaleIds(windows: map<ThreatId, seq<Sample>>, now: int): (r: set<ThreatId>)
    requires WellFormed(windows)
    ensures forall t :: t in r <==> t in windows && Stale(windows[t], now)
  {
    set t | t in windows && Stale(windows[t], now)
  }

  // ---------------------------------------------------------------------------
  // Records written, and the dictionary's key order
  // ---------------------------------------------------------------------------

  /**
   * The records written when the keys `keys` are visited in order and every
   * key in `pick` has its window summarised.
   */
  function Emitted(keys: seq<ThreatId>, windows: map<ThreatId, seq<Sample>>, pick: set<ThreatId>): seq<Record>
    requires WellFormed(windows) && AllIn(keys, windows)
  {
    if keys == [] then []
    else
      var t := keys[|keys| - 1];
      Emitted(keys[..|keys| - 1], windows, pick)
        + (if t in pick then [Record(t, CalculateSummary(windows[t]))] else [])
  }

  /** The keys of `keys` that are not in `pick`, in their order. */
  function Kept(keys: seq<ThreatId>, pick: set<ThreatId>): seq<ThreatId> {
    if keys == [] then []
    else
      var t := keys[|keys| - 1];
      Kept(keys[..|keys| - 1], pick) + (if t in pick then [] else [t])
  }

  /** Dropping the last key of a distinct list leaves a distinct list without it. */
  lemma DistinctInit(keys: seq<ThreatId>)
    requires Distinct(keys) && keys != []
    ensures Distinct(keys[..|keys| - 1]) && keys[|keys| - 1] !in keys[..|keys| - 1]
  {
    var init := keys[..|keys| - 1];
    forall i | 0 <= i < |init| ensures init[i] != keys[|keys| - 1] {
      assert init[i] == keys[i];
    }
  }

  /** `Kept` keeps exactly the keys not in `pick`. */
  lemma {:induction false} KeptMember(keys: seq<ThreatId>, pick: set<ThreatId>, t: ThreatId)
    ensures t in Kept(keys, pick) <==> t in keys && t !in pick
  {
    if keys != [] {
      var init := keys[..|keys| - 1];
      assert keys == init + [keys[|keys| - 1]];
      KeptMember(init, pick, t);
    }
  }

  /** `Kept` of a list without repetitions has none either. */
  lemma {:induction false} KeptDistinct(keys: seq<ThreatId>, pick: set<ThreatId>)
    requires Distinct(keys)
    ensures Distinct(Kept(keys, pick))
  {
    if keys != [] {
      var init, t := keys[..|keys| - 1], keys[|keys| - 1];
      DistinctInit(keys);
      KeptDistinct(init, pick);
      KeptMember(init, pick, t);
    }
  }

  /** After removing the picked windows, `Kept` lists exactly the remaining ids, each once. */
  lemma KeptKeys(keys: seq<ThreatId>, windows: map<ThreatId, seq<Sample>>, pick: set<ThreatId>)
    requires Distinct(keys) && KeysOf(keys, windows)
    ensures Distinct(Kept(keys, pick)) && KeysOf(Kept(keys, pick), windows - pick)
  {
    KeptDistinct(keys, pick);
    var r := Kept(keys, pick);
    forall i | 0 <= i < |r| ensures r[i] in windows - pick {
      KeptMember(keys, pick, r[i]);
      var j :| 0 <= j < |keys| && keys[j] == r[i];
    }
    forall t | t in windows - pick ensures t in r {
      KeptMember(keys, pick, t);
    }
  }

  /** The keys of `keys` that are in `pick`. */
  function Picked(keys: seq<ThreatId>, pick: set<ThreatId>): set<ThreatId> {
    if keys == [] then {}
    else
      var t := keys[|keys| - 1];
      Picked(keys[..|keys| - 1], pick) + (if t in pick then {t} else {})
  }

  lemma {:induction false} PickedMember(keys: seq<ThreatId>, pick: set<ThreatId>, t: ThreatId)
    ensures t in Picked(keys, pick) <==> t in keys && t in pick
  {
    if keys != [] {
      var init := keys[..|keys| - 1];
      assert keys == init + [keys[|keys| - 1]];
      PickedMember(init, pick, t);
    }
  }

  /** When `keys` lists every id that has a window, the picked ids among them are all the picked windows. */
  lemma PickedAll(keys: seq<ThreatId>, windows: map<ThreatId, seq<Sample>>, pick: set<ThreatId>)
    requires KeysOf(keys, windows) && pick <= windows.Keys
    ensures Picked(keys, pick) == pick
  {
    forall t ensures t in Picked(keys, pick) <==> t in pick {
      PickedMember(keys, pick, t);
    }
  }

  /** Visiting one more key adds its record, if it is picked, after those of the keys before it. */
  lemma EmittedStep(keys: seq<ThreatId>, i: nat, windows: map<ThreatId, seq<Sample>>, pick: set<ThreatId>)
    requires i < |keys| && WellFormed(windows) && AllIn(keys, windows)
    ensures keys[i] in windows && |windows[keys[i]]| > 0
    ensures AllIn(keys[..i], windows) && AllIn(keys[..i + 1], windows)
    ensures Emitted(keys[..i + 1], windows, pick) == Emitted(keys[..i], windows, pick)
              + (if keys[i] in pick then [Record(keys[i], CalculateSummary(windows[keys[i]]))] else [])
  {
    var k := keys[..i + 1];
    assert k[..|k| - 1] == keys[..i] && k[|k| - 1] == keys[i];
  }

  /** What one pass of the sweep loop adds to the picked set, the kept keys and the records. */
  lemma SweepStep(keys: seq<ThreatId>, i: nat, windows: map<ThreatId, seq<Sample>>, pick: set<ThreatId>)
    requires i < |keys| && Distinct(keys) && WellFormed(windows) && AllIn(keys, windows)
    ensures AllIn(keys[..i], windows) && AllIn(keys[..i + 1], windows) && keys[i] in windows
    ensures keys[i] !in Picked(keys[..i], pick)
    ensures Picked(keys[..i + 1], pick) == Picked(keys[..i], pick) + (if keys[i] in pick then {keys[i]} else {})
    ensures Kept(keys[..i + 1], pick) == Kept(keys[..i], pick) + (if keys[i] in pick then [] else [keys[i]])
    ensures Emitted(keys[..i + 1], windows, pick) == Emitted(keys[..i], windows, pick)
              + (if keys[i] in pick then [Record(keys[i], CalculateSummary(windows[keys[i]]))] else [])
  {
    assert keys[..i + 1][..i] == keys[..i];
    assert keys[i] !in keys[..i] by {
      forall j | 0 <= j < i ensures keys[..i][j] != keys[i] { }
    }
    PickedMember(keys[..i], pick, keys[i]);
  }

  lemma MapMinusStep(windows: map<ThreatId, seq<Sample>>, p: set<ThreatId>, t: ThreatId)
    ensures (windows - p) - {t} == windows - (p + {t})
  {
  }

  // ---------------------------------------------------------------------------
  // Conservation: what arrived per threat id is either written or still pending
  // ---------------------------------------------------------------------------

  /** The (speed, distance) pairs of the measurements for `t`, in arrival order. */
  function Arrived(ds: seq<Detection>, t: ThreatId): seq<Reading> {
    if ds == [] then []
    else
      var d := ds[|ds| - 1];
      Arrived(ds[..|ds| - 1], t) + (if d.threatId == t then [Reading(d.speed, d.distance)] else [])
  }

  /** The "data" lists of the records written for `t`, concatenated in the order they were written. */
  function Delivered(rs: seq<Record>, t: ThreatId): seq<Reading> {
    if rs == [] then []
    else
      var r := rs[|rs| - 1];
      Delivered(rs[..|rs| - 1], t) + (if r.threatId == t then r.summary.data else [])
  }

  /** The pairs still waiting in `t`'s window. */
  function Pending(windows: map<ThreatId, seq<Sample>>, t: ThreatId): seq<Reading> {
    if t in windows then Readings(windows[t]) else []
  }

  /** Every pair that arrived for a threat id has been written once, or is pending, in arrival order. */
  ghost predicate Conserved(dataFile: seq<Record>, windows: map<ThreatId, seq<Sample>>, accepted: seq<Detection>) {
    forall t :: Delivered(dataFile, t) + Pending(windows, t) == Arrived(accepted, t)
  }

  lemma {:induction false} DeliveredAppend(a: seq<Record>, b: seq<Record>, t: ThreatId)
    ensures Delivered(a + b, t) == Delivered(a, t) + Delivered(b, t)
  {
    if b == [] {
      assert a + b == a;
    } else {
      var init := b[..|b| - 1];
      assert (a + b)[..|a + b| - 1] == a + init;
      assert (a + b)[|a + b| - 1] == b[|b| - 1];
      DeliveredAppend(a, init, t);
    }
  }

  lemma SummaryDataIsReadings(w: seq<Sample>)
    requires |w| > 0
    ensures CalculateSummary(w).data == Readings(w)
  {
  }

  /** Visiting `keys` in order writes `t`'s window exactly when `t` is one of the keys picked. */
  lemma {:induction false} DeliveredEmitted(keys: seq<ThreatId>, windows: map<ThreatId, seq<Sample>>, pick: set<ThreatId>, t: ThreatId)
    requires WellFormed(windows) && AllIn(keys, windows) && Distinct(keys)
    ensures Delivered(Emitted(keys, windows, pick), t) == if t in keys && t in pick then Readings(windows[t]) else []
  {
    if keys != [] {
      var init, last := keys[..|keys| - 1], keys[|keys| - 1];
      assert keys == init + [last];
      DistinctInit(keys);
      DeliveredEmitted(init, windows, pick, t);
      var tail := if last in pick then [Record(last, CalculateSummary(windows[last]))] else [];
      DeliveredAppend(Emitted(init, windows, pick), tail, t);
      if last in pick {
        SummaryDataIsReadings(windows[last]);
        assert tail[..0] == [];
      }
    }
  }

  /** Counts the records written for `t`. */
  function CountFor(rs: seq<Record>, t: ThreatId): nat {
    if rs == [] then 0
    else CountFor(rs[..|rs| - 1], t) + (if rs[|rs| - 1].threatId == t then 1 else 0)
  }

  lemma {:induction false} CountForAppend(a: seq<Record>, b: seq<Record>, t: ThreatId)
    ensures CountFor(a + b, t) == CountFor(a, t) + CountFor(b, t)
  {
    if b == [] {
      assert a + b == a;
    } else {
      var init := b[..|b| - 1];
      assert (a + b)[..|a + b| - 1] == a + init;
      assert (a + b)[|a + b| - 1] == b[|b| - 1];
      CountForAppend(a, init, t);
    }
  }

  /**
   * A pass over `keys` writes exactly one record for each picked key and none
   * for any other id, and every record is the summary of its own window.
   */
  lemma {:induction false} EmittedOncePerPick(keys: seq<ThreatId>, windows: map<ThreatId, seq<Sample>>, pick: set<ThreatId>)
    requires WellFormed(windows) && AllIn(keys, windows) && Distinct(keys)
    ensures forall t :: CountFor(Emitted(keys, windows, pick), t) == if t in keys && t in pick then 1 else 0
    ensures forall r :: r in Emitted(keys, windows, pick) ==>
              r.threatId in keys && r.threatId in pick && r.summary == CalculateSummary(windows[r.threatId])
  {
    if keys != [] {
      var init, last := keys[..|keys| - 1], keys[|keys| - 1];
      assert keys == init + [last];
      DistinctInit(keys);
      EmittedOncePerPick(init, windows, pick);
      var tail := if last in pick then [Record(last, CalculateSummary(windows[last]))] else [];
      forall t ensures CountFor(Emitted(keys, windows, pick), t) == if t in keys && t in pick then 1 else 0 {
        CountForAppend(Emitted(init, windows, pick), tail, t);
        assert tail != [] ==> tail[..0] == [];
      }
    }
  }

  /**
   * Writing the picked windows (in key order) and removing them from the
   * dictionary keeps every arrived pair written once or pending.
   */
  lemma EmitConserves(dataFile: seq<Record>, windows: map<ThreatId, seq<Sample>>, keys: seq<ThreatId>,
                      accepted: seq<Detection>, pick: set<ThreatId>)
    requires WellFormed(windows) && Distinct(keys) && KeysOf(keys, windows)
    requires Conserved(dataFile, windows, accepted)
    ensures Conserved(dataFile + Emitted(keys, windows, pick), windows - pick, accepted)
  {
    forall t ensures Delivered(dataFile + Emitted(keys, windows, pick), t) + Pending(windows - pick, t) == Arrived(accepted, t) {
      EmitConservesFor(dataFile, windows, keys, accepted, pick, t);
    }
  }

  lemma EmitConservesFor(dataFile: seq<Record>, windows: map<ThreatId, seq<Sample>>, keys: seq<ThreatId>,
                         accepted: seq<Detection>, pick: set<ThreatId>, t: ThreatId)
    requires WellFormed(windows) && Distinct(keys) && KeysOf(keys, windows)
    requires Delivered(dataFile, t) + Pending(windows, t) == Arrived(accepted, t)
    ensures Delivered(dataFile + Emitted(keys, windows, pick), t) + Pending(windows - pick, t) == Arrived(accepted, t)
  {
    var emitted := Emitted(keys, windows, pick);
    DeliveredAppend(dataFile, emitted, t);
    DeliveredEmitted(keys, windows, pick, t);
    var before, now := Delivered(dataFile, t), Delivered(emitted, t);
    if t in windows && t in pick {
      assert t in keys;
      assert Pending(windows - pick, t) == [];
      assert now == Pending(windows, t);
      assert before + now + [] == before + Pending(windows, t);
    } else {
      assert now == [];
      assert Pending(windows - pick, t) == Pending(windows, t);
      assert before + now == before;
    }
  }

  /** Appending a measurement to its window keeps every arrived pair written once or pending. */
  lemma AcceptConserves(dataFile: seq<Record>, windows: map<ThreatId, seq<Sample>>, accepted: seq<Detection>,
                        now: int, d: Detection)
    requires Conserved(dataFile, windows, accepted)
    ensures Conserved(dataFile, windows[d.threatId := WindowOf(windows, d.threatId) + [SampleOf(now, d)]], accepted + [d])
  {
    var windows' := windows[d.threatId := WindowOf(windows, d.threatId) + [SampleOf(now, d)]];
    assert (accepted + [d])[..|accepted|] == accepted;
    forall t ensures Delivered(dataFile, t) + Pending(windows', t) == Arrived(accepted + [d], t) {
      if t == d.threatId {
        ReadingsAppend(WindowOf(windows, t), SampleOf(now, d));
      }
    }
  }

  /** Storing a measurement keeps the dictionary well formed, its key order distinct and complete, and the pairs conserved. */
  lemma AcceptKeepsValid(windows: map<ThreatId, seq<Sample>>, order: seq<ThreatId>, dataFile: seq<Record>,
                         accepted: seq<Detection>, now: int, d: Detection)
    requires WellFormed(windows) && Distinct(order) && KeysOf(order, windows)
    requires Conserved(dataFile, windows, accepted)
    ensures var windows' := windows[d.threatId := WindowOf(windows, d.threatId) + [SampleOf(now, d)]];
            var order' := if d.threatId in windows then order else order + [d.threatId];
            WellFormed(windows') && Distinct(order') && KeysOf(order', windows')
            && Conserved(dataFile, windows', accepted + [d])
  {
    AcceptConserves(dataFile, windows, accepted, now, d);
  }

  /** When everything has been written, the records for each id carry exactly the pairs that arrived for it. */
  lemma FlushDelivers(dataFile: seq<Record>, windows: map<ThreatId, seq<Sample>>, keys: seq<ThreatId>,
                      accepted: seq<Detection>)
    requires WellFormed(windows) && Distinct(keys) && KeysOf(keys, windows)
    requires Conserved(dataFile, windows, accepted)
    ensures forall t :: Delivered(dataFile + Emitted(keys, windows, windows.Keys), t) == Arrived(accepted, t)
  {
    EmitConserves(dataFile, windows, keys, accepted, windows.Keys);
    assert windows - windows.Keys == map[];
  }

  /** Whatever has been written for an id is a prefix of what arrived for it: nothing is invented or repeated. */
  lemma DeliveredIsPrefix(dataFile: seq<Record>, windows: map<ThreatId, seq<Sample>>, accepted: seq<Detection>)
    requires Conserved(dataFile, windows, accepted)
    ensures forall t :: Delivered(dataFile, t) <= Arrived(accepted, t)
  {
    forall t ensures Delivered(dataFile, t) <= Arrived(accepted, t) {
      var a, b := Delivered(dataFile, t), Pending(windows, t);
      assert (a + b)[..|a|] == a;
    }
  }

  // ---------------------------------------------------------------------------
  // The input stream
  // ---------------------------------------------------------------------------

  predicate IsStop(item: Item) {
    item.Sentinel? || item.Interrupt?
  }

  /** Index of the first pass that ends the loop (sentinel or interrupt), or `|steps|` if none does. */
  function StopIndex(steps: seq<Step>): (n: nat)
    ensures n <= |steps|
    ensures forall j :: 0 <= j < n ==> !IsStop(steps[j].item)
    ensures n < |steps| ==> IsStop(steps[n].item)
  {
    if steps == [] then 0
    else if IsStop(steps[0].item) then 0
    else 1 + StopIndex(steps[1..])
  }

  /** The measurements among the passes, in order. */
  function EntriesOf(steps: seq<Step>): seq<Detection> {
    if steps == [] then []
    else
      var s := steps[|steps| - 1];
      EntriesOf(steps[..|steps| - 1]) + (if s.item.Entry? then [s.item.detection] else [])
  }

  /** One trace line per measurement, stamped with its pass's second. */
  function TracesOf(steps: seq<Step>): seq<TraceLine> {
    if steps == [] then []
    else
      var s := steps[|steps| - 1];
      TracesOf(steps[..|steps| - 1]) + (if s.item.Entry? then [TraceLine(s.now, s.item.detection)] else [])
  }

  /**
   * One pass of the staleness sweep over a copy of the dictionary, visiting
   * its keys in order: the summary of every window whose newest timestamp is
   * more than ten seconds before `now` is written, and that window deleted;
   * fresh windows stay. Returns the keys and windows left, and the records
   * written, in the order they were written.
   */
  method SweepPass(keys: seq<ThreatId>, windows: map<ThreatId, seq<Sample>>, now: int)
      returns (kept: seq<ThreatId>, remaining: map<ThreatId, seq<Sample>>, records: seq<Record>)
    requires WellFormed(windows) && Distinct(keys) && KeysOf(keys, windows)
    ensures remaining == windows - StaleIds(windows, now)
    ensures kept == Kept(keys, StaleIds(windows, now))
    ensures records == Emitted(keys, windows, StaleIds(windows, now))
    ensures Distinct(kept) && KeysOf(kept, remaining)
  {
    ghost var stale := StaleIds(windows, now);
    kept, remaining, records := [], windows, [];
    var i := 0;
    while i < |keys|
      invariant 0 <= i <= |keys|
      invariant remaining == windows - Picked(keys[..i], stale)
      invariant kept == Kept(keys[..i], stale)
      invariant records == Emitted(keys[..i], windows, stale)
    {
      var t := keys[i];
      SweepStep(keys, i, windows, stale);
      var data := windows[t];
      var newest := Highest(Timestamps(data));
      if now - newest > QuietPeriod {
        records := records + [Record(t, CalculateSummary(data))];
        MapMinusStep(windows, Picked(keys[..i], stale), t);
        remaining := remaining - {t};
      } else {
        kept := kept + [t];
      }
      i := i + 1;
    }
    assert keys[..|keys|] == keys;
    PickedAll(keys, windows, stale);
    KeptKeys(keys, windows, stale);
  }

  /** What one more pass adds to the measurements and trace lines of the passes before it. */
  lemma StepsAppend(steps: seq<Step>, i: nat)
    requires i < |steps|
    ensures EntriesOf(steps[..i + 1])
              == EntriesOf(steps[..i]) + (if steps[i].item.Entry? then [steps[i].item.detection] else [])
    ensures TracesOf(steps[..i + 1])
              == TracesOf(steps[..i]) + (if steps[i].item.Entry? then [TraceLine(steps[i].now, steps[i].item.detection)] else [])
  {
    assert steps[..i + 1][..i] == steps[..i];
  }

  /** The loop of the sentinel's flush: the summary of every window, in key order. */
  method FlushPass(keys: seq<ThreatId>, windows: map<ThreatId, seq<Sample>>) returns (records: seq<Record>)
    requires WellFormed(windows) && KeysOf(keys, windows)
    ensures records == Emitted(keys, windows, windows.Keys)
  {
    records := [];
    var i := 0;
    while i < |keys|
      invariant 0 <= i <= |keys|
      invariant records == Emitted(keys[..i], windows, windows.Keys)
    {
      var t := keys[i];
      EmittedStep(keys, i, windows, windows.Keys);
      records := records + [Record(t, CalculateSummary(windows[t]))];
      i := i + 1;
    }
    assert keys[..|keys|] == keys;
  }

  /** The loop ends on a sentinel (not on an interrupt, not by running out of input). */
  predicate EndsWithSentinel(steps: seq<Step>) {
    StopIndex(steps) < |steps| && steps[StopIndex(steps)].item.Sentinel?
  }

  // ---------------------------------------------------------------------------
  // The loop's effect on the dictionary, `last_timestamp` and the data file
  // ---------------------------------------------------------------------------

  /** The part of the consumer's state that decides what is written: `data_dict`, its key order, `last_timestamp`, the data file. */
  datatype LoopState = LoopState(windows: map<ThreatId, seq<Sample>>, order: seq<ThreatId>, lastSecond: int, dataFile: seq<Record>)

  /** Every window is non-empty and the key order lists each id that has a window, once. */
  predicate Coherent(s: LoopState) {
    WellFormed(s.windows) && Distinct(s.order) && KeysOf(s.order, s.windows)
  }

  /** Storing a measurement taken off the queue in second `now`. */
  function AcceptStep(s: LoopState, now: int, d: Detection): (r: LoopState)
    requires Coherent(s)
    ensures Coherent(r) && r.lastSecond == s.lastSecond && r.dataFile == s.dataFile
    ensures d.threatId in r.windows && r.windows[d.threatId] == WindowOf(s.windows, d.threatId) + [SampleOf(now, d)]
    ensures forall t :: t != d.threatId ==> WindowOf(r.windows, t) == WindowOf(s.windows, t)
  {
    s.(windows := s.windows[d.threatId := WindowOf(s.windows, d.threatId) + [SampleOf(now, d)]],
       order := if d.threatId in s.windows then s.order else s.order + [d.threatId])
  }

  /**
   * The check at the end of a pass read in second `now`: in the second last
   * checked nothing happens; in a new second every stale window is written, in
   * key order, and deleted.
   */
  function TickStep(s: LoopState, now: int): (r: LoopState)
    requires Coherent(s)
    ensures Coherent(r) && r.lastSecond == now
    ensures now == s.lastSecond ==> r == s
    ensures now != s.lastSecond ==> forall t :: t in r.windows ==> t in s.windows && r.windows[t] == s.windows[t] && !Stale(r.windows[t], now)
    ensures now != s.lastSecond ==> forall t :: t in s.windows && !Stale(s.windows[t], now) ==> t in r.windows
  {
    if now == s.lastSecond then s
    else
      var stale := StaleIds(s.windows, now);
      KeptKeys(s.order, s.windows, stale);
      LoopState(s.windows - stale, Kept(s.order, stale), now, s.dataFile + Emitted(s.order, s.windows, stale))
  }

  /**
   * What the check writes in a new second: after what was written before, one
   * record per stale window and none for any other id, each the summary of its
   * own window.
   */
  lemma TickStepWrites(s: LoopState, now: int)
    requires Coherent(s) && now != s.lastSecond
    ensures var r := TickStep(s, now);
            |s.dataFile| <= |r.dataFile| && r.dataFile[..|s.dataFile|] == s.dataFile
            && (forall t :: CountFor(r.dataFile[|s.dataFile|..], t) == if t in s.windows && Stale(s.windows[t], now) then 1 else 0)
            && forall rec :: rec in r.dataFile[|s.dataFile|..] ==>
                 rec.threatId in s.windows && Stale(s.windows[rec.threatId], now)
                 && rec.summary == CalculateSummary(s.windows[rec.threatId])
  {
    var stale := StaleIds(s.windows, now);
    var written := Emitted(s.order, s.windows, stale);
    EmittedOncePerPick(s.order, s.windows, stale);
    assert (s.dataFile + written)[|s.dataFile|..] == written;
    assert (s.dataFile + written)[..|s.dataFile|] == s.dataFile;
  }

  /** One pass that does not end the loop: a measurement is stored (a timeout stores nothing), then the check runs. */
  function PassStep(s: LoopState, step: Step): (r: LoopState)
    requires Coherent(s)
    ensures Coherent(r) && r.lastSecond == step.now
  {
    var s1 := if step.item.Entry? then AcceptStep(s, step.now, step.item.detection) else s;
    TickStep(s1, step.now)
  }

  /** The state after the passes `steps`, in order, from `s`. */
  function Passes(s: LoopState, steps: seq<Step>): (r: LoopState)
    requires Coherent(s)
    ensures Coherent(r)
    ensures steps != [] ==> r.lastSecond == steps[|steps| - 1].now
  {
    if steps == [] then s
    else PassStep(Passes(s, steps[..|steps| - 1]), steps[|steps| - 1])
  }

  /** The sentinel's flush: the summary of every window is written, once per window, after what was written before. */
  function FlushStep(s: LoopState): (r: LoopState)
    requires Coherent(s)
    ensures r.windows == s.windows && r.order == s.order && r.lastSecond == s.lastSecond
    ensures |s.dataFile| <= |r.dataFile| && r.dataFile[..|s.dataFile|] == s.dataFile
    ensures forall t :: CountFor(r.dataFile[|s.dataFile|..], t) == if t in s.windows then 1 else 0
  {
    var written := Emitted(s.order, s.windows, s.windows.Keys);
    EmittedOncePerPick(s.order, s.windows, s.windows.Keys);
    assert (s.dataFile + written)[|s.dataFile|..] == written;
    s.(dataFile := s.dataFile + written)
  }

  /** The state when the loop over `steps` ends: the passes before the first stop, then the flush if that stop is the sentinel. */
  function Outcome(s: LoopState, steps: seq<Step>): LoopState
    requires Coherent(s)
  {
    var t := Passes(s, steps[..StopIndex(steps)]);
    if EndsWithSentinel(steps) then FlushStep(t) else t
  }

  lemma AppendAssoc<T>(a: seq<T>, b: seq<T>, c: seq<T>)
    ensures (a + b) + c == a + (b + c)
  {
  }

  /** The passes up to `i + 1` are those up to `i` followed by pass `i`. */
  lemma PassesAppend(s: LoopState, steps: seq<Step>, i: nat)
    requires Coherent(s) && i < |steps|
    ensures Passes(s, steps[..i + 1]) == PassStep(Passes(s, steps[..i]), steps[i])
  {
    assert steps[..i + 1][..i] == steps[..i];
  }

  // ---------------------------------------------------------------------------
  // The consumer's state and its operations
  // ---------------------------------------------------------------------------

  class Consumer {
    /** `data_dict`: threat id -> window of samples. */
    var windows: map<ThreatId, seq<Sample>>
    /** The insertion order of `data_dict`'s keys, the order in which the dictionary is iterated. */
    var order: seq<ThreatId>
    /** `last_timestamp`: the second at which staleness was last checked. */
    var lastSecond: int
    /** The data file, one record per summary. */
    var dataFile: seq<Record>
    /** The stream file, written when `write_stream` is set. */
    var streamFile: seq<TraceLine>
    /** The console trace, printed when `print_stream` is set. */
    var console: seq<TraceLine>
    const printStream: bool
    const writeStream: bool
    /** Every measurement appended so far, in order. */
    ghost var accepted: seq<Detection>

    ghost predicate Valid()
      reads this`windows, this`order, this`dataFile, this`accepted
    {
      WellFormed(windows) && Distinct(order) && KeysOf(order, windows)
      && Conserved(dataFile, windows, accepted)
    }

    /** The fields that decide what is written, as a value. */
    function Snapshot(): LoopState
      reads this`windows, this`order, this`lastSecond, this`dataFile
    {
      LoopState(windows, order, lastSecond, dataFile)
    }

    /** The state at the start of `consume_data_queue`: an empty dictionary, `last_timestamp` the current second. */
    constructor (start: int, printStream: bool, writeStream: bool)
      ensures Valid()
      ensures windows == map[] && order == [] && lastSecond == start
      ensures dataFile == [] && streamFile == [] && console == [] && accepted == []
      ensures this.printStream == printStream && this.writeStream == writeStream
    {
      windows, order, lastSecond := map[], [], start;
      dataFile, streamFile, console := [], [], [];
      this.printStream, this.writeStream := printStream, writeStream;
      accepted := [];
    }

    /** The trace output of a measurement: printed and/or written, each behind its own flag. */
    method Trace(now: int, d: Detection)
      modifies this`console, this`streamFile
      ensures console == old(console) + (if printStream then [TraceLine(now, d)] else [])
      ensures streamFile == old(streamFile) + (if writeStream then [TraceLine(now, d)] else [])
    {
      if printStream {
        console := console + [TraceLine(now, d)];
      }
      if writeStream {
        streamFile := streamFile + [TraceLine(now, d)];
      }
    }

    /**
     * Stores a measurement taken off the queue in second `now`: creates an
     * empty window if the id has none, then appends the triple at its end.
     * Other windows are untouched; a new id goes last in the key order.
     */
    method Accept(now: int, d: Detection)
      requires Valid()
      modifies this`windows, this`order, this`accepted
      ensures Valid()
      ensures windows == old(windows)[d.threatId := WindowOf(old(windows), d.threatId) + [SampleOf(now, d)]]
      ensures order == if d.threatId in old(windows) then old(order) else old(order) + [d.threatId]
      ensures accepted == old(accepted) + [d]
      ensures Snapshot() == AcceptStep(old(Snapshot()), now, d)
    {
      AcceptKeepsValid(windows, order, dataFile, accepted, now, d);
      // a new id gets an empty window first, at the end of the key order
      if d.threatId !in windows {
        order := order + [d.threatId];
      }
      windows := windows[d.threatId := WindowOf(windows, d.threatId) + [SampleOf(now, d)]];
      accepted := accepted + [d];
    }

    /**
     * The staleness sweep: visits a copy of the keys in dictionary order and,
     * for every window whose newest timestamp is more than ten seconds before
     * `now`, writes its summary and deletes it. Fresh windows stay as they are.
     */
    method Sweep(now: int)
      requires Valid()
      modifies this`windows, this`order, this`dataFile
      ensures Valid()
      ensures windows == old(windows) - StaleIds(old(windows), now)
      ensures order == Kept(old(order), StaleIds(old(windows), now))
      ensures dataFile == old(dataFile) + Emitted(old(order), old(windows), StaleIds(old(windows), now))
    {
      ghost var stale := StaleIds(windows, now);
      ghost var d0 := dataFile;
      ghost var keys, copy := order, windows;
      var records;
      order, windows, records := SweepPass(order, windows, now);
      dataFile := dataFile + records;
      EmitConserves(d0, copy, keys, accepted, stale);
    }

    /**
     * The check at the end of each pass: when the second read at the top of
     * the pass differs from the last one checked, record it and sweep; in the
     * same second, do nothing, so one second sweeps at most once.
     */
    method Tick(now: int)
      requires Valid()
      modifies this`windows, this`order, this`dataFile, this`lastSecond
      ensures Valid()
      ensures lastSecond == now
      ensures now == old(lastSecond) ==> windows == old(windows) && order == old(order) && dataFile == old(dataFile)
      ensures now != old(lastSecond) ==>
                windows == old(windows) - StaleIds(old(windows), now)
                && order == Kept(old(order), StaleIds(old(windows), now))
                && dataFile == old(dataFile) + Emitted(old(order), old(windows), StaleIds(old(windows), now))
      ensures Snapshot() == TickStep(old(Snapshot()), now)
    {
      if now != lastSecond {
        lastSecond := now;
        Sweep(now);
      }
    }

    /**
     * The flush on the sentinel: writes the summary of every window still in
     * the dictionary, in dictionary order. After it, the records for each id
     * carry exactly the pairs that arrived for it.
     */
    method FlushAll()
      requires Valid()
      modifies this`dataFile
      ensures dataFile == old(dataFile) + Emitted(order, windows, windows.Keys)
      ensures forall t :: Delivered(dataFile, t) == Arrived(accepted, t)
    {
      ghost var d0 := dataFile;
      var records := FlushPass(order, windows);
      dataFile := dataFile + records;
      FlushDelivers(d0, windows, order, accepted);
    }

    /**
     * One pass of the loop that does not end it: a measurement taken off the
     * queue is traced and stored, a timeout stores nothing; then the
     * once-a-second check runs.
     */
    method Pass(step: Step)
      requires Valid() && !IsStop(step.item)
      modifies this`windows, this`order, this`dataFile, this`lastSecond, this`accepted, this`console, this`streamFile
      ensures Valid()
      ensures Snapshot() == PassStep(old(Snapshot()), step)
      ensures accepted == old(accepted) + (if step.item.Entry? then [step.item.detection] else [])
      ensures console == old(console) + (if step.item.Entry? && printStream then [TraceLine(step.now, step.item.detection)] else [])
      ensures streamFile == old(streamFile) + (if step.item.Entry? && writeStream then [TraceLine(step.now, step.item.detection)] else [])
    {
      ghost var s0 := Snapshot();
      if step.item.Entry? {
        Trace(step.now, step.item.detection);
        Accept(step.now, step.item.detection);
      }
      ghost var s1 := Snapshot();
      assert s1 == if step.item.Entry? then AcceptStep(s0, step.now, step.item.detection) else s0;
      Tick(step.now);
      assert Snapshot() == TickStep(s1, step.now);
    }

    /** Pass `i` of `steps`, extending what the passes before it did. */
    method PassAt(steps: seq<Step>, i: nat, ghost s0: LoopState, ghost accepted0: seq<Detection>,
                  ghost console0: seq<TraceLine>, ghost streamFile0: seq<TraceLine>)
      requires Valid() && Coherent(s0) && i < |steps| && !IsStop(steps[i].item)
      requires Snapshot() == Passes(s0, steps[..i])
      requires accepted == accepted0 + EntriesOf(steps[..i])
      requires console == console0 + (if printStream then TracesOf(steps[..i]) else [])
      requires streamFile == streamFile0 + (if writeStream then TracesOf(steps[..i]) else [])
      modifies this`windows, this`order, this`dataFile, this`lastSecond, this`accepted, this`console, this`streamFile
      ensures Valid()
      ensures Snapshot() == Passes(s0, steps[..i + 1])
      ensures accepted == accepted0 + EntriesOf(steps[..i + 1])
      ensures console == console0 + (if printStream then TracesOf(steps[..i + 1]) else [])
      ensures streamFile == streamFile0 + (if writeStream then TracesOf(steps[..i + 1]) else [])
    {
      ghost var entries, traces := EntriesOf(steps[..i]), TracesOf(steps[..i]);
      StepsAppend(steps, i);
      PassesAppend(s0, steps, i);
      Pass(steps[i]);
      var line := if steps[i].item.Entry? then [TraceLine(steps[i].now, steps[i].item.detection)] else [];
      AppendAssoc(accepted0, entries, if steps[i].item.Entry? then [steps[i].item.detection] else []);
      AppendAssoc(console0, if printStream then traces else [], if printStream then line else []);
      AppendAssoc(streamFile0, if writeStream then traces else [], if writeStream then line else []);
    }

    /**
     * The `while True` loop up to the pass that ends it: every pass before the
     * first sentinel or interrupt (or the end of the input) traces and stores
     * its measurement, if any, then runs the once-a-second check. Returns the
     * index of the pass that ends the loop.
     */
    method RunPasses(steps: seq<Step>) returns (i: nat)
      requires Valid()
      modifies this`windows, this`order, this`dataFile, this`lastSecond, this`accepted, this`console, this`streamFile
      ensures i == StopIndex(steps)
      ensures Valid()
      ensures Snapshot() == Passes(old(Snapshot()), steps[..i])
      ensures accepted == old(accepted) + EntriesOf(steps[..i])
      ensures console == old(console) + (if printStream then TracesOf(steps[..i]) else [])
      ensures streamFile == old(streamFile) + (if writeStream then TracesOf(steps[..i]) else [])
    {
      ghost var s0 := Snapshot();
      i := 0;
      while i < |steps| && !IsStop(steps[i].item)
        invariant i <= StopIndex(steps)
        invariant Valid() && Coherent(s0)
        invariant Snapshot() == Passes(s0, steps[..i])
        invariant accepted == old(accepted) + EntriesOf(steps[..i])
        invariant console == old(console) + (if printStream then TracesOf(steps[..i]) else [])
        invariant streamFile == old(streamFile) + (if writeStream then TracesOf(steps[..i]) else [])
      {
        assert i < StopIndex(steps);
        PassAt(steps, i, s0, old(accepted), old(console), old(streamFile));
        i := i + 1;
      }
    }

    /**
     * The whole loop over the passes `steps`: the passes before the first stop,
     * then, if that stop is the sentinel, the flush. An interrupt ends the loop
     * without flushing.
     */
    method Run(steps: seq<Step>)
      requires Valid()
      modifies this`windows, this`order, this`dataFile, this`lastSecond, this`accepted, this`console, this`streamFile
      ensures accepted == old(accepted) + EntriesOf(steps[..StopIndex(steps)])
      ensures console == old(console) + (if printStream then TracesOf(steps[..StopIndex(steps)]) else [])
      ensures streamFile == old(streamFile) + (if writeStream then TracesOf(steps[..StopIndex(steps)]) else [])
      ensures Snapshot() == Outcome(old(Snapshot()), steps)
      ensures EndsWithSentinel(steps) ==> forall t :: Delivered(dataFile, t) == Arrived(accepted, t)
      ensures !EndsWithSentinel(steps) ==> Valid()
    {
      var i := RunPasses(steps);
      if i < |steps| && steps[i].item.Sentinel? {
        FlushAll();
      }
    }
  }

  /**
   * `consume_data_queue` from start to end: a fresh consumer whose clock reads
   * `start` runs over `steps`. Whatever is written for a threat id is a prefix
   * of the measurements that arrived for it; when the loop ends on the
   * sentinel, it is all of them, each written once, in arrival order.
   */
  method ConsumeDataQueue(start: int, steps: seq<Step>, printStream: bool, writeStream: bool)
    returns (dataFile: seq<Record>, streamFile: seq<TraceLine>, console: seq<TraceLine>)
    ensures dataFile == Outcome(LoopState(map[], [], start, []), steps).dataFile
    ensures forall t :: Delivered(dataFile, t) <= Arrived(EntriesOf(steps[..StopIndex(steps)]), t)
    ensures EndsWithSentinel(steps) ==>
              forall t :: Delivered(dataFile, t) == Arrived(EntriesOf(steps[..StopIndex(steps)]), t)
    ensures console == if printStream then TracesOf(steps[..StopIndex(steps)]) else []
    ensures streamFile == if writeStream then TracesOf(steps[..StopIndex(steps)]) else []
  {
    var c := new Consumer(start, printStream, writeStream);
    c.Run(steps);
    assert c.accepted == EntriesOf(steps[..StopIndex(steps)]);
    if !EndsWithSentinel(steps) {
      DeliveredIsPrefix(c.dataFile, c.windows, c.accepted);
    } else {
      forall t ensures Delivered(c.dataFile, t) <= Arrived(c.accepted, t) {
        assert Delivered(c.dataFile, t) == Arrived(c.accepted, t);
      }
    }
    dataFile, streamFile, console := c.dataFile, c.streamFile, c.console;
  }

  /** After a sweep has finished `t`'s window, the next measurement for `t` starts a new window of its own. */
  method ReusedIdStartsFresh(c: Consumer, now: int, d: Detection)
    requires c.Valid() && now != c.lastSecond
    requires d.threatId in c.windows && Stale(c.windows[d.threatId], now)
    modifies c
    ensures d.threatId in c.windows && c.windows[d.threatId] == [SampleOf(now, d)]
    ensures c.order == Kept(old(c.order), StaleIds(old(c.windows), now)) + [d.threatId]
  {
    c.Tick(now);
    c.Accept(now, d);
  }
}
