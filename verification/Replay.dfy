/** Replaying a capture: every entry once per lap, in order, under whatever the clock does. */
module Replay {
  import opened Common
  import opened Seqs
  import opened Wire
  import opened Candump
  import E = EngineStates

  type Parser = string -> Result<Option<Entry>>

  /** The entries of a capture; one malformed line refuses the file. */
  function ParseLines(lines: seq<string>, parse: Parser): Result<seq<Entry>> {
    if lines == [] then Ok([])
    else
      var init, e := ParseLines(lines[..|lines| - 1], parse), parse(lines[|lines| - 1]);
      if init.Err? || e.Err? then Err
      else Ok(init.value + (if e.value.Some? then [e.value.value] else []))
  }

  function LineParser(): Parser {
    (line: string) => ParseLine(line)
  }

  /** What the clock shows during one call: at a restart, and before and after the pacing sleep. */
  datatype Clock = Clock(restartWall: real, restartMonoUs: int, before: real, after: real)

  datatype BusState = BusState(
    entries: seq<Entry>, realtime: bool, loop: bool, index: nat, wallStart: real, monoBaseUs: int, logBaseUs: int)

  function Opened(entries: seq<Entry>, realtime: bool, loop: bool, wall: real, monoUs: int): BusState {
    BusState(entries, realtime, loop, 0, wall, monoUs, if entries == [] then 0 else entries[0].tUs)
  }

  function MessageOf(e: Entry, monoBaseUs: int, logBaseUs: int): E.Message {
    E.Message(Some(monoBaseUs + (e.tUs - logBaseUs)), e.arbitrationId, e.dlc, e.data, e.isExtended, false, e.isRtr)
  }

  predicate Exhausted(b: BusState) {
    b.index >= |b.entries|
  }

  /** A looping bus starts its next lap with the first call after the last entry. */
  function Rewound(b: BusState, c: Clock): BusState {
    if Exhausted(b) && b.loop && b.entries != [] then
      b.(index := 0, wallStart := c.restartWall, monoBaseUs := c.restartMonoUs)
    else b
  }

  /** When the next entry is scheduled, in seconds of the wall clock. */
  function Target(b: BusState): real
    requires !Exhausted(b)
  {
    b.wallStart + (b.entries[b.index].tUs - b.logBaseUs) as real / 1000000.0
  }

  predicate Due(b: BusState, c: Clock)
    requires !Exhausted(b)
  {
    !b.realtime || Target(b) <= c.before || Target(b) <= c.after
  }

  /** One call: the next entry when it is due, else nothing. */
  function Received(b: BusState, c: Clock): (BusState, Option<E.Message>) {
    var b1 := Rewound(b, c);
    if Exhausted(b1) || !Due(b1, c) then (b1, None)
    else (b1.(index := b1.index + 1), Some(MessageOf(b1.entries[b1.index], b1.monoBaseUs, b1.logBaseUs)))
  }

  class ReplayBus {
    const realtime: bool
    const loop: bool
    const entries: seq<Entry>
    var index: nat
    var wallStart: real
    var monoBaseUs: int
    const logBaseUs: int

    function View(): BusState
      reads this
    {
      BusState(entries, realtime, loop, index, wallStart, monoBaseUs, logBaseUs)
    }

    constructor (entries: seq<Entry>, realtime: bool, loop: bool, wall: real, monoUs: int)
      ensures View() == Opened(entries, realtime, loop, wall, monoUs)
    {
      this.entries, this.realtime, this.loop := entries, realtime, loop;
      index, wallStart, monoBaseUs := 0, wall, monoUs;
      logBaseUs := if |entries| > 0 then entries[0].tUs else 0;
    }

    method Restart(c: Clock)
      modifies this
      ensures View() == old(View()).(index := 0, wallStart := c.restartWall, monoBaseUs := c.restartMonoUs)
    {
      index := 0;
      wallStart := c.restartWall;
      monoBaseUs := c.restartMonoUs;
    }

    method Recv(c: Clock) returns (m: Option<E.Message>)
      modifies this
      ensures (View(), m) == Received(old(View()), c)
    {
      if index >= |entries| {
        if loop && |entries| > 0 {
          Restart(c);
        } else {
          return None;
        }
      }
      var entry := entries[index];
      var relUs := entry.tUs - logBaseUs;
      if realtime {
        var target := wallStart + relUs as real / 1000000.0;
        if target - c.before > 0.0 && c.after < target {
          return None;
        }
      }
      index := index + 1;
      m := Some(E.Message(Some(monoBaseUs + relUs), entry.arbitrationId, entry.dlc, entry.data,
                          entry.isExtended, false, entry.isRtr));
    }
  }

  /* ---- runs ---------------------------------------------------------------------------------------- */

  /** A run: the state, the messages it gave and what the wall clock showed as it gave them, and the
      time bases and wall clock of the laps before the current one. */
  datatype Played = Played(
    bus: BusState, out: seq<E.Message>, given: seq<real>, past: seq<int>, walls: seq<real>)

  function Next(p: Played, c: Clock): Played {
    var r := Received(p.bus, c);
    var again := Exhausted(p.bus) && p.bus.loop && p.bus.entries != [];
    Played(r.0, if r.1.Some? then p.out + [r.1.value] else p.out, if r.1.Some? then p.given + [c.after] else p.given,
           if again then p.past + [p.bus.monoBaseUs] else p.past,
           if again then p.walls + [p.bus.wallStart] else p.walls)
  }

  function Run(b: BusState, clocks: seq<Clock>): Played
    decreases |clocks|
  {
    if clocks == [] then Played(b, [], [], [], [])
    else Next(Run(b, clocks[..|clocks| - 1]), clocks[|clocks| - 1])
  }

  /** One whole lap on a time base. */
  function Lap(entries: seq<Entry>, base: int): (ms: seq<E.Message>)
    ensures |ms| == |entries|
  {
    seq(|entries|, i requires 0 <= i < |entries| => MessageOf(entries[i], base, entries[0].tUs))
  }

  function Laps(entries: seq<Entry>, bases: seq<int>): seq<E.Message> {
    if bases == [] then [] else Laps(entries, bases[..|bases| - 1]) + Lap(entries, bases[|bases| - 1])
  }

  /** The entries so far: whole laps, then the current one up to the index. */
  ghost predicate InLaps(entries: seq<Entry>, loop: bool, p: Played) {
    && p.bus.entries == entries && p.bus.loop == loop && p.bus.index <= |entries|
    && (entries != [] ==> p.bus.logBaseUs == entries[0].tUs)
    && p.out == Laps(entries, p.past) + Lap(entries, p.bus.monoBaseUs)[..p.bus.index]
    && (!loop ==> p.past == [])
  }

  /** Main theorem: under any clock, the messages given are whole laps in order and a prefix of the
      current one; without looping there is a single lap. */
  lemma {:induction false} EveryEntryOncePerLap(
      entries: seq<Entry>, realtime: bool, loop: bool, wall: real, monoUs: int, clocks: seq<Clock>)
    ensures InLaps(entries, loop, Run(Opened(entries, realtime, loop, wall, monoUs), clocks))
    decreases |clocks|
  {
    var b := Opened(entries, realtime, loop, wall, monoUs);
    if clocks != [] {
      var n := |clocks| - 1;
      EveryEntryOncePerLap(entries, realtime, loop, wall, monoUs, clocks[..n]);
      ReceiveKeeps(entries, loop, Run(b, clocks[..n]), clocks[n]);
    }
  }

  lemma ReceiveKeeps(entries: seq<Entry>, loop: bool, p: Played, c: Clock)
    requires InLaps(entries, loop, p)
    ensures InLaps(entries, loop, Next(p, c))
  {
    var b1, q := Rewound(p.bus, c), Next(p, c);
    if Exhausted(p.bus) && loop && entries != [] {
      assert (p.past + [p.bus.monoBaseUs])[..|p.past|] == p.past;
      assert Lap(entries, p.bus.monoBaseUs)[..|entries|] == Lap(entries, p.bus.monoBaseUs);
      assert p.out == Laps(entries, q.past) + Lap(entries, b1.monoBaseUs)[..0];
    }
    if !Exhausted(b1) && Due(b1, c) {
      var lap := Lap(entries, b1.monoBaseUs);
      TakeNext(lap, b1.index);
      assert Laps(entries, q.past) + lap[..b1.index + 1] == Laps(entries, q.past) + lap[..b1.index] + [lap[b1.index]];
    }
  }

  /** Where entry `a` of lap `k` stands among the messages, in laps of `n` entries. */
  ghost function Place(n: nat, k: nat, a: nat): nat {
    if k == 0 then a else n + Place(n, k - 1, a)
  }

  lemma {:induction false} PlaceInLap(n: nat, k: nat, a: nat)
    ensures Place(n, k, a) == Place(n, k, 0) + a
  {
    if k > 0 {
      PlaceInLap(n, k - 1, a);
    }
  }

  lemma {:induction false} PlaceBefore(n: nat, k: nat, m: nat)
    ensures k < m ==> Place(n, k, 0) + n <= Place(n, m, 0)
    decreases m
  {
    if k < m - 1 {
      PlaceBefore(n, k, m - 1);
    }
  }

  lemma {:induction false} LapsLength(entries: seq<Entry>, bases: seq<int>)
    ensures |Laps(entries, bases)| == Place(|entries|, |bases|, 0)
  {
    if bases != [] {
      LapsLength(entries, bases[..|bases| - 1]);
    }
  }

  /** Message `a` of lap `k`. */
  lemma {:induction false} LapsAt(entries: seq<Entry>, bases: seq<int>, k: nat, a: nat)
    requires k < |bases| && a < |entries|
    ensures var i := Place(|entries|, k, a);
      i < |Laps(entries, bases)| && Laps(entries, bases)[i] == MessageOf(entries[a], bases[k], entries[0].tUs)
    decreases |bases|
  {
    var n, init := |bases| - 1, bases[..|bases| - 1];
    LapsLength(entries, init);
    PlaceInLap(|entries|, k, a);
    if k < n {
      PlaceBefore(|entries|, k, n);
      LapsAt(entries, init, k, a);
    } else {
      assert Lap(entries, bases[n])[a] == MessageOf(entries[a], bases[n], entries[0].tUs);
    }
  }

  /** Under any clock, message `a` of lap `k` is entry `a` on the time base of that lap, so within a
      lap the messages are as far apart as the log says. */
  lemma GapsAreKept(entries: seq<Entry>, realtime: bool, loop: bool, wall: real, monoUs: int, clocks: seq<Clock>,
                    k: nat, a: nat, b: nat)
    requires a < |entries| && b < |entries|
    ensures var p := Run(Opened(entries, realtime, loop, wall, monoUs), clocks);
      var i, j, bases := Place(|entries|, k, a), Place(|entries|, k, b), p.past + [p.bus.monoBaseUs];
      i < |p.out| && j < |p.out| ==>
        && k < |bases| && p.out[i] == MessageOf(entries[a], bases[k], entries[0].tUs)
        && p.out[j] == MessageOf(entries[b], bases[k], entries[0].tUs)
        && p.out[j].stampUs.value - p.out[i].stampUs.value == entries[b].tUs - entries[a].tUs
  {
    var p := Run(Opened(entries, realtime, loop, wall, monoUs), clocks);
    EveryEntryOncePerLap(entries, realtime, loop, wall, monoUs, clocks);
    if Place(|entries|, k, a) < |p.out| && Place(|entries|, k, b) < |p.out| {
      InLapAt(entries, loop, p, k, a);
      InLapAt(entries, loop, p, k, b);
    }
  }

  lemma InLapAt(entries: seq<Entry>, loop: bool, p: Played, k: nat, a: nat)
    requires InLaps(entries, loop, p) && a < |entries| && Place(|entries|, k, a) < |p.out|
    ensures k <= |p.past|
    ensures p.out[Place(|entries|, k, a)] == MessageOf(entries[a], (p.past + [p.bus.monoBaseUs])[k], entries[0].tUs)
  {
    var n := |entries|;
    PlaceInLap(n, k, a);
    LapsLength(entries, p.past);
    PlaceBefore(n, |p.past|, k);
    if k < |p.past| {
      LapsAt(entries, p.past, k, a);
    }
  }

  /** When the entries of a lap are scheduled on the wall clock. */
  function Times(entries: seq<Entry>, wall: real): (ts: seq<real>)
    ensures |ts| == |entries|
  {
    seq(|entries|, i requires 0 <= i < |entries| => wall + (entries[i].tUs - entries[0].tUs) as real / 1000000.0)
  }

  function AllTimes(entries: seq<Entry>, walls: seq<real>): seq<real> {
    if walls == [] then [] else AllTimes(entries, walls[..|walls| - 1]) + Times(entries, walls[|walls| - 1])
  }

  /** The schedule of the messages given so far: that of every whole lap, then of the current one. */
  function Schedule(entries: seq<Entry>, p: Played): seq<real>
    requires p.bus.index <= |entries|
  {
    AllTimes(entries, p.walls) + Times(entries, p.bus.wallStart)[..p.bus.index]
  }

  ghost predicate NoneBefore(given: seq<real>, schedule: seq<real>) {
    |given| == |schedule| && forall i :: 0 <= i < |given| ==> schedule[i] <= given[i]
  }

  /** In real time, over every run, no message is given before its time of the schedule has come. */
  lemma {:induction false} NeverEarly(entries: seq<Entry>, loop: bool, wall: real, monoUs: int, clocks: seq<Clock>)
    requires forall i :: 0 <= i < |clocks| ==> clocks[i].before <= clocks[i].after
    ensures var p := Run(Opened(entries, true, loop, wall, monoUs), clocks);
      InLaps(entries, loop, p) && p.bus.realtime && NoneBefore(p.given, Schedule(entries, p))
    decreases |clocks|
  {
    EveryEntryOncePerLap(entries, true, loop, wall, monoUs, clocks);
    if clocks != [] {
      var n := |clocks| - 1;
      NeverEarly(entries, loop, wall, monoUs, clocks[..n]);
      ScheduleKeeps(entries, loop, Run(Opened(entries, true, loop, wall, monoUs), clocks[..n]), clocks[n]);
    }
  }

  lemma ScheduleKeeps(entries: seq<Entry>, loop: bool, p: Played, c: Clock)
    requires InLaps(entries, loop, p) && InLaps(entries, loop, Next(p, c)) && p.bus.realtime && c.before <= c.after
    requires NoneBefore(p.given, Schedule(entries, p))
    ensures Next(p, c).bus.realtime && NoneBefore(Next(p, c).given, Schedule(entries, Next(p, c)))
  {
    var b1, q := Rewound(p.bus, c), Next(p, c);
    var times := Times(entries, b1.wallStart);
    if Exhausted(p.bus) && loop && entries != [] {
      assert (p.walls + [p.bus.wallStart])[..|p.walls|] == p.walls;
      assert Times(entries, p.bus.wallStart)[..|entries|] == Times(entries, p.bus.wallStart);
      assert Schedule(entries, p) == AllTimes(entries, q.walls) + times[..0];
    }
    assert Schedule(entries, p) == AllTimes(entries, q.walls) + times[..b1.index];
    if !Exhausted(b1) && Due(b1, c) {
      TakeNext(times, b1.index);
      assert times[b1.index] == Target(b1) <= c.after;
      assert Schedule(entries, q) == Schedule(entries, p) + [times[b1.index]];
    }
  }

  /** A call gives nothing exactly when no entry is left and the bus does not start over, or the clock has not
      reached the time of the next entry: the start of the lap and the distance from the first entry. */
  lemma AnswersWhenDue(b: BusState, c: Clock)
    requires c.before <= c.after && (b.entries != [] ==> b.logBaseUs == b.entries[0].tUs)
    ensures var (after, m) := Received(b, c);
      var left, again := b.index < |b.entries|, b.index >= |b.entries| && b.loop && b.entries != [];
      var index, start := if again then 0 else b.index, if again then c.restartWall else b.wallStart;
      && (m.None? <==>
            (!left && !again)
            || (b.realtime && c.after - start < (b.entries[index].tUs - b.entries[0].tUs) as real / 1000000.0))
      && (after.entries, after.realtime, after.loop, after.logBaseUs) == (b.entries, b.realtime, b.loop, b.logBaseUs)
      && after.index == (if m.Some? then index + 1 else index) && after.wallStart == start
      && after.monoBaseUs == (if again then c.restartMonoUs else b.monoBaseUs)
  {
  }

  /* ---- a recording played back ---------------------------------------------------------------------------- */

  /** Captured frames are stamped from 0 on and carry masked identifiers. */
  ghost predicate Captured(f: BusFrame) {
    f.tUs >= 0 && 0 <= f.canId < ID_LIMIT
  }

  ghost function LineOf(f: BusFrame, iface: string): string
    requires Captured(f)
  {
    FormatLine(f.tUs, f.canId, f.data, f.dlc, f.isExtended, f.isRtr, iface)
  }

  ghost function SaidBy(f: BusFrame, iface: string): Entry
    requires Captured(f)
  {
    Said(f.tUs, f.canId, f.data, f.dlc, f.isExtended, f.isRtr, iface)
  }

  /** Line and entry `i` of a recording are those of frame `i`. */
  ghost predicate Recorded(line: string, f: BusFrame, iface: string) {
    Captured(f) && line == LineOf(f, iface)
  }

  ghost predicate Read(e: Entry, f: BusFrame, iface: string) {
    Captured(f) && e == SaidBy(f, iface)
  }

  ghost predicate IsRecording(lines: seq<string>, frames: seq<BusFrame>, iface: string) {
    |lines| == |frames| && forall i :: 0 <= i < |frames| ==> Recorded(lines[i], frames[i], iface)
  }

  ghost predicate IsReading(es: seq<Entry>, frames: seq<BusFrame>, iface: string) {
    |es| == |frames| && forall i :: 0 <= i < |frames| ==> Read(es[i], frames[i], iface)
  }

  lemma LineParses(line: string, f: BusFrame, iface: string) returns (e: Entry)
    requires Recorded(line, f, iface) && InterfaceName(iface)
    ensures Read(e, f, iface) && LineParser()(line) == Ok(Some(e))
  {
    ParseOfFormat(f.tUs, f.canId, f.data, f.dlc, f.isExtended, f.isRtr, iface);
    e := SaidBy(f, iface);
  }

  /** Entry `i` is what line `i` parses to. */
  ghost predicate Follows(lines: seq<string>, es: seq<Entry>, parse: Parser) {
    |lines| == |es| && forall i :: 0 <= i < |lines| ==> parse(lines[i]) == Ok(Some(es[i]))
  }

  /** Lines that parse one by one make the entries of the file. */
  lemma {:induction false} LinesParse(lines: seq<string>, es: seq<Entry>, parse: Parser)
    requires Follows(lines, es, parse)
    ensures ParseLines(lines, parse) == Ok(es)
  {
    if lines != [] {
      var n := |lines| - 1;
      LinesParse(lines[..n], es[..n], parse);
      assert es == es[..n] + [es[n]];
    }
  }

  lemma FollowsNext(lines: seq<string>, init: seq<Entry>, e: Entry, parse: Parser)
    requires lines != [] && Follows(lines[..|lines| - 1], init, parse) && parse(lines[|lines| - 1]) == Ok(Some(e))
    ensures Follows(lines, init + [e], parse)
  {
    var n := |lines| - 1;
    assert forall i :: 0 <= i < n ==> lines[i] == lines[..n][i];
  }

  /** A recording reads back as one entry per frame. */
  lemma {:induction false} RecordingReads(lines: seq<string>, frames: seq<BusFrame>, iface: string)
    returns (es: seq<Entry>)
    requires IsRecording(lines, frames, iface) && InterfaceName(iface)
    ensures IsReading(es, frames, iface) && Follows(lines, es, LineParser())
    decreases |frames|
  {
    if frames == [] {
      es := [];
    } else {
      var n := |frames| - 1;
      RecordingPrefix(lines, frames, iface);
      var init := RecordingReads(lines[..n], frames[..n], iface);
      var e := LineParses(lines[n], frames[n], iface);
      es := init + [e];
      FollowsNext(lines, init, e, LineParser());
      ReadingNext(init, e, frames, iface);
    }
  }

  lemma RecordingPrefix(lines: seq<string>, frames: seq<BusFrame>, iface: string)
    requires IsRecording(lines, frames, iface) && frames != []
    ensures IsRecording(lines[..|frames| - 1], frames[..|frames| - 1], iface)
    ensures Recorded(lines[|frames| - 1], frames[|frames| - 1], iface)
  {
  }

  /** A recording parses to one entry per frame. */
  lemma RecordingParses(lines: seq<string>, frames: seq<BusFrame>, iface: string) returns (es: seq<Entry>)
    requires IsRecording(lines, frames, iface) && InterfaceName(iface)
    ensures ParseLines(lines, LineParser()) == Ok(es) && IsReading(es, frames, iface)
  {
    es := RecordingReads(lines, frames, iface);
    LinesParse(lines, es, LineParser());
  }

  lemma ReadingNext(init: seq<Entry>, e: Entry, frames: seq<BusFrame>, iface: string)
    requires frames != [] && IsReading(init, frames[..|frames| - 1], iface) && Read(e, frames[|frames| - 1], iface)
    ensures IsReading(init + [e], frames, iface)
  {
    var n := |frames| - 1;
    forall i | 0 <= i < |frames| ensures Read((init + [e])[i], frames[i], iface) {
      if i < n {
        assert Read(init[i], frames[..n][i], iface);
      }
    }
  }

  /** A message replayed from the entry of a whole frame becomes that frame at its new time. */
  lemma EntryPlaysFrame(e: Entry, f: BusFrame, iface: string, base: int, logBase: int, nowUs: int)
    requires Read(e, f, iface) && Whole(f)
    ensures E.FrameOf(MessageOf(e, base, logBase), nowUs) == Ok(f.(tUs := base + (f.tUs - logBase)))
  {
    assert !f.isRtr ==> Upto(f.data, f.dlc) == f.data;
  }

  /**
   * Record, then replay: the file parses to one entry per frame, and a lap gives back each whole
   * frame, all of them moved by the same amount to the new time base.
   */
  lemma ReplayOfRecording(lines: seq<string>, frames: seq<BusFrame>, iface: string, es: seq<Entry>, base: int, i: nat,
                          nowUs: int)
    requires IsRecording(lines, frames, iface) && InterfaceName(iface) && i < |frames| && Whole(frames[i])
    requires ParseLines(lines, LineParser()) == Ok(es)
    ensures |es| == |frames|
    ensures E.FrameOf(Lap(es, base)[i], nowUs) == Ok(frames[i].(tUs := base + (frames[i].tUs - frames[0].tUs)))
  {
    var es' := RecordingParses(lines, frames, iface);
    LapPlaysFrames(frames, iface, es, base, i, nowUs);
  }

  lemma LapPlaysFrames(frames: seq<BusFrame>, iface: string, es: seq<Entry>, base: int, i: nat, nowUs: int)
    requires IsReading(es, frames, iface) && i < |frames| && Whole(frames[i])
    ensures E.FrameOf(Lap(es, base)[i], nowUs) == Ok(frames[i].(tUs := base + (frames[i].tUs - frames[0].tUs)))
  {
    assert Read(es[0], frames[0], iface) && Read(es[i], frames[i], iface);
    FirstTime(es[0], frames[0], iface);
    EntryPlaysFrame(es[i], frames[i], iface, base, frames[0].tUs, nowUs);
    assert Lap(es, base)[i] == MessageOf(es[i], base, es[0].tUs);
  }

  lemma FirstTime(e: Entry, f: BusFrame, iface: string)
    requires Read(e, f, iface)
    ensures e.tUs == f.tUs
  {
  }
}
