/** The plugin's reaction to the simulator's messages (`simMsg`): a session that
    opens one CSV output when the simulation is about to start, counts the primary
    sensing ticks, samples every 50th counted tick into a data row, and is closed
    and reset when the script state is destroyed. Clock readings, the host's scene
    queries and the outcome of opening the file are inputs. */
module SimLogger {
  import opened Wrappers
  import Folders
  import ActiveObjects

  /** A sample is taken on every counted tick that brings the frame counter to a multiple of this. */
  const SamplePeriod := 50

  /** The "OS - Plugin FPS" figure: 0 until measured, then the frames counted in
      a window divided by that window's wall-clock length (`window` clock units).
      The floating-point quotient itself is not computed. */
  datatype Fps = ZeroFps | Quotient(frames: int, window: int)

  /** One data row of the CSV output. Host numbers that the plugin only formats
      (step size, simulation and real time) are their formatted strings;
      `sinceStart` is the wall-clock time since the session started. */
  datatype Row = Row(
    timestamp: string,
    frame: int,
    stepSizeMs: string,
    simTimeMs: string,
    realTimeMs: string,
    sinceStart: int,
    fps: Fps,
    objects: string,
    collisions: int)

  /** An output file the plugin opened: its path, whether it is still open, and
      the data rows written to it (the header line is not modelled). */
  datatype Output = Output(path: string, open: bool, rows: seq<Row>)

  /** What the about-to-start handler learns from its environment: the base
      directory (`NAAD_WS_DIR`), whether `NAAD_CONFIG_LOGS` is set, the listing of
      `<base>/logs`, the formatted current date and time, whether the file could be
      opened (`fileOpens`), and the wall clock. */
  datatype StartInputs = StartInputs(
    naadDir: string,
    configLogs: bool,
    logsListing: seq<Folders.Entry>,
    dateTime: string,
    fileOpens: bool,
    now: int)

  /** What a sensing tick learns from the host: the formatted simulation and
      real times, the wall clock (read once per sample), the scene's objects, the formatted step size, the
      collision count of the collision target (`None` when `/MiR100` is not in
      the scene) and the formatted current date and time. */
  datatype TickInputs = TickInputs(
    simTimeMs: string,
    realTimeMs: string,
    now: int,
    objects: Option<seq<ActiveObjects.SceneObject>>,
    stepSizeMs: string,
    collision: Option<int>,
    timestamp: string)

  /** The messages the plugin reacts to; every other message is `OtherMessage`. */
  datatype Message =
    | SimulationAboutToStart(start: StartInputs)
    | SimulationSensing(auxData0: int, tick: TickInputs)
    | ScriptStateDestroyed
    | OtherMessage

  /** The file the session writes to: `simLogger.csv` under `coppelia/` of the
      latest logs folder when configured so, else a time-stamped file under
      `<base>/logs/coppelia/`. */
  function OutputPath(start: StartInputs, latest: string): string
  {
    if start.configLogs then latest + "/coppelia/" + "simLogger.csv"
    else start.naadDir + "/logs/coppelia/" + "simLogger_" + start.dateTime + ".csv"
  }

  function CollisionCount(collision: Option<int>): int
  {
    match collision
    case None => 0
    case Some(n) => n
  }

  /** The row a sample writes. */
  function SampleRow(tick: TickInputs, frame: int, fps: Fps, sinceStart: int): Row
  {
    Row(tick.timestamp, frame, tick.stepSizeMs, tick.simTimeMs, tick.realTimeMs, sinceStart,
        fps, ActiveObjects.ObjectsJson(tick.objects), CollisionCount(tick.collision))
  }

  /** Only the most recent output can be open. */
  predicate OnlyLastOpen(outputs: seq<Output>) {
    forall i :: 0 <= i < |outputs| - 1 ==> !outputs[i].open
  }

  lemma AtMostOneOpen(outputs: seq<Output>, i: int, j: int)
    requires OnlyLastOpen(outputs)
    requires 0 <= i < |outputs| && 0 <= j < |outputs|
    requires outputs[i].open && outputs[j].open
    ensures i == j
  {
  }

  /** The rows of one output are samples taken every `SamplePeriod` counted
      ticks: each is for a positive multiple of the period, one period after the
      row before it. */
  ghost predicate Spaced(rows: seq<Row>)
    decreases |rows|
  {
    |rows| == 0 ||
    (var n := |rows| - 1;
     rows[n].frame > 0 && rows[n].frame % SamplePeriod == 0 &&
     (n > 0 ==> rows[n].frame == rows[n - 1].frame + SamplePeriod) &&
     Spaced(rows[..n]))
  }

  /** Every prefix of spaced rows is spaced. */
  lemma {:induction false} SpacedPrefix(rows: seq<Row>, k: int)
    requires Spaced(rows)
    requires 0 <= k <= |rows|
    ensures Spaced(rows[..k])
    decreases |rows|
  {
    if k < |rows| {
      var n := |rows| - 1;
      SpacedPrefix(rows[..n], k);
      assert rows[..n][..k] == rows[..k];
    } else {
      assert rows[..k] == rows;
    }
  }

  /** Each row of spaced rows is for a positive multiple of the period, one
      period after the row before it. */
  lemma SpacedAt(rows: seq<Row>, i: int)
    requires Spaced(rows)
    requires 0 <= i < |rows|
    ensures rows[i].frame > 0 && rows[i].frame % SamplePeriod == 0
    ensures i > 0 ==> rows[i].frame == rows[i - 1].frame + SamplePeriod
  {
    SpacedPrefix(rows, i + 1);
    var p := rows[..i + 1];
    assert p[i] == rows[i];
    assert i > 0 ==> p[i - 1] == rows[i - 1];
  }

  /** Spaced rows are `SamplePeriod` frames apart per position. */
  lemma {:induction false} SpacedDistance(rows: seq<Row>, i: int, j: int)
    requires Spaced(rows)
    requires 0 <= i <= j < |rows|
    ensures rows[j].frame == rows[i].frame + SamplePeriod * (j - i)
    decreases j - i
  {
    if i < j {
      SpacedDistance(rows, i, j - 1);
      SpacedAt(rows, j);
    }
  }

  /** A row one period after the last keeps rows spaced. */
  lemma AppendSpaced(rows: seq<Row>, row: Row)
    requires Spaced(rows)
    requires row.frame > 0 && row.frame % SamplePeriod == 0
    requires |rows| > 0 ==> row.frame == rows[|rows| - 1].frame + SamplePeriod
    ensures Spaced(rows + [row])
  {
    assert (rows + [row])[..|rows|] == rows;
  }

  /** Every output holds spaced rows. */
  ghost predicate AllSpaced(outputs: seq<Output>)
    decreases |outputs|
  {
    |outputs| == 0 ||
    (Spaced(outputs[|outputs| - 1].rows) && AllSpaced(outputs[..|outputs| - 1]))
  }

  /** The rows of each output of `AllSpaced` outputs are spaced. */
  lemma {:induction false} AllSpacedAt(outputs: seq<Output>, i: int)
    requires AllSpaced(outputs)
    requires 0 <= i < |outputs|
    ensures Spaced(outputs[i].rows)
    decreases |outputs|
  {
    var n := |outputs| - 1;
    if i < n {
      AllSpacedAt(outputs[..n], i);
      assert outputs[..n][i] == outputs[i];
    }
  }

  /** Replacing the last output by one with spaced rows keeps `AllSpaced`; so
      does adding one. */
  lemma ReplaceLastSpaced(outputs: seq<Output>, last: Output)
    requires AllSpaced(outputs) && |outputs| > 0
    requires Spaced(last.rows)
    ensures AllSpaced(outputs[..|outputs| - 1] + [last])
  {
    var n := |outputs| - 1;
    assert (outputs[..n] + [last])[..n] == outputs[..n];
  }

  lemma AddSpaced(outputs: seq<Output>, next: Output)
    requires AllSpaced(outputs)
    requires Spaced(next.rows)
    ensures AllSpaced(outputs + [next])
  {
    assert (outputs + [next])[..|outputs|] == outputs;
  }

  /** Marks the open output, if any, as closed. */
  function CloseLast(outputs: seq<Output>): (r: seq<Output>)
    requires OnlyLastOpen(outputs)
    ensures |r| == |outputs|
    ensures forall i :: 0 <= i < |r| ==> !r[i].open
    ensures forall i :: 0 <= i < |r| ==> r[i].path == outputs[i].path && r[i].rows == outputs[i].rows
  {
    if |outputs| == 0 then outputs
    else outputs[..|outputs| - 1] + [outputs[|outputs| - 1].(open := false)]
  }

  /** Writes `row` to the open output; with no open output nothing is written. */
  function AppendRow(outputs: seq<Output>, row: Row): seq<Output>
  {
    if |outputs| > 0 && outputs[|outputs| - 1].open then
      var last := outputs[|outputs| - 1];
      outputs[..|outputs| - 1] + [last.(rows := last.rows + [row])]
    else
      outputs
  }

  /** Writing a row changes only the open output, and only by appending that row. */
  lemma AppendRowOnlyExtendsOpen(outputs: seq<Output>, row: Row)
    ensures var r := AppendRow(outputs, row);
            |r| == |outputs| &&
            (forall i :: 0 <= i < |r| ==> r[i].path == outputs[i].path && r[i].open == outputs[i].open) &&
            (forall i :: 0 <= i < |r| && !(outputs[i].open && i == |r| - 1) ==> r[i] == outputs[i]) &&
            (|r| > 0 && outputs[|r| - 1].open ==> r[|r| - 1].rows == outputs[|r| - 1].rows + [row])
  {
  }

  /** The last multiple of `SamplePeriod` a counter has reached. */
  function LastSampleFrame(total: int): int
  {
    total - total % SamplePeriod
  }

  /** Clock units per second: the plugin's clock counts nanoseconds. */
  const ClockRate := 1_000_000_000

  /** At least one second has passed since `since`. */
  predicate SecondElapsed(since: int, now: int)
  {
    now - since >= ClockRate
  }

  /** Whole milliseconds from `since` to `now`, truncated toward zero as a
      duration cast truncates. */
  function MillisSince(since: int, now: int): (ms: int)
    ensures since <= now ==> 0 <= ms && ms * 1_000_000 <= now - since < (ms + 1) * 1_000_000
    ensures now < since ==> ms <= 0 && (ms - 1) * 1_000_000 < now - since <= ms * 1_000_000
  {
    var d := now - since;
    if d >= 0 then d / 1_000_000 else -((-d) / 1_000_000)
  }

  /** The FPS measurement at a sample, from the counter, figure and window start
      before it to those after it: if a second has passed the window restarts at
      `now` with the figure set to the frames counted over the window's length,
      otherwise nothing changes. */
  predicate Measured(frameCount: int, fps: Fps, lastTime: int, now: int,
                     frameCount': int, fps': Fps, lastTime': int)
  {
    if SecondElapsed(lastTime, now) then
      frameCount' == 0 && fps' == Quotient(frameCount, now - lastTime) && lastTime' == now
    else
      frameCount' == frameCount && fps' == fps && lastTime' == lastTime
  }

  /** Opening a file for writing empties it: every earlier output at `path`
      loses its rows. */
  function Truncated(outputs: seq<Output>, path: string): seq<Output>
  {
    seq(|outputs|, i requires 0 <= i < |outputs| =>
      if outputs[i].path == path then outputs[i].(rows := []) else outputs[i])
  }

  /** The history after an open of `next`: when the open succeeds, the file at
      its path is emptied first, so earlier outputs at that path lose their rows. */
  function Opened(outputs: seq<Output>, next: Output): seq<Output>
  {
    (if next.open then Truncated(outputs, next.path) else outputs) + [next]
  }

  /** A successful open empties exactly the earlier outputs at the same path and
      leaves every other output as it was; a failed open only records the attempt. */
  lemma OpenedEmpties(outputs: seq<Output>, next: Output)
    ensures var r := Opened(outputs, next);
            |r| == |outputs| + 1 && r[|outputs|] == next &&
            (forall i :: 0 <= i < |outputs| ==>
               r[i].path == outputs[i].path && r[i].open == outputs[i].open &&
               r[i].rows == (if next.open && outputs[i].path == next.path then [] else outputs[i].rows))
  {
  }

  /** Output `i` of `before` is emptied in `after` because `after` adds a
      successfully opened output at the same path. */
  ghost predicate Reopened(before: seq<Output>, after: seq<Output>, i: int)
    requires 0 <= i < |before| <= |after|
  {
    |after| == |before| + 1 && after[|before|].open && after[|before|].path == before[i].path
  }

  /** `after` is `before` with at most one output added and rows only appended
      to; a closed output stays as it was unless a later open of its path
      empties it. */
  ghost predicate Extends(before: seq<Output>, after: seq<Output>)
  {
    |before| <= |after| <= |before| + 1 &&
    (forall i :: 0 <= i < |before| ==> after[i].path == before[i].path) &&
    (forall i :: 0 <= i < |before| && Reopened(before, after, i) ==> after[i].rows == [] && !after[i].open) &&
    (forall i :: 0 <= i < |before| && !Reopened(before, after, i) ==> before[i].rows <= after[i].rows) &&
    (forall i :: 0 <= i < |before| && !before[i].open && !Reopened(before, after, i) ==> after[i] == before[i])
  }

  /** Leaving the outputs alone extends them. */
  lemma ExtendsRefl(outputs: seq<Output>)
    ensures Extends(outputs, outputs)
  {
  }

  /** Writing a row extends the outputs. */
  lemma AppendRowExtends(outputs: seq<Output>, row: Row)
    ensures Extends(outputs, AppendRow(outputs, row))
  {
    AppendRowOnlyExtendsOpen(outputs, row);
  }

  /** Closing the open output extends the outputs. */
  lemma CloseExtends(outputs: seq<Output>)
    requires OnlyLastOpen(outputs)
    ensures Extends(outputs, CloseLast(outputs))
  {
  }

  /** Opening a new output after closing every one extends the outputs. */
  lemma OpenExtends(before: seq<Output>, closed: seq<Output>, next: Output)
    requires Extends(before, closed) && |closed| == |before|
    requires forall i :: 0 <= i < |closed| ==> !closed[i].open
    ensures Extends(before, Opened(closed, next))
  {
    OpenedEmpties(closed, next);
  }

  /** The outputs' invariant: only the newest may be open, every one holds spaced
      rows, and the open one's last row is for frame `lastSample`. */
  ghost predicate OutputsValid(outputs: seq<Output>, lastSample: int) {
    OnlyLastOpen(outputs) &&
    AllSpaced(outputs) &&
    (|outputs| > 0 && outputs[|outputs| - 1].open && |outputs[|outputs| - 1].rows| > 0 ==>
       outputs[|outputs| - 1].rows[|outputs[|outputs| - 1].rows| - 1].frame == lastSample)
  }

  /** The session invariant on the plugin's state: the counters agree modulo the
      sample period (the FPS window resets `frameCount` only at a sample, when
      both are multiples of it), and the outputs keep their invariant with respect
      to the last sample frame. */
  ghost predicate SessionInvariant(frameCount: int, totalFrames: int, outputs: seq<Output>) {
    0 <= frameCount <= totalFrames &&
    frameCount % SamplePeriod == totalFrames % SamplePeriod &&
    OutputsValid(outputs, LastSampleFrame(totalFrames))
  }

  /** A counted tick keeps the counters congruent. It samples exactly when the
      total reaches a multiple of the period, and then the previous sample was one
      period earlier; otherwise the last sample frame stays where it was. */
  lemma CountTick(frameCount: int, totalFrames: int)
    requires 0 <= frameCount <= totalFrames
    requires frameCount % SamplePeriod == totalFrames % SamplePeriod
    ensures (frameCount + 1) % SamplePeriod == (totalFrames + 1) % SamplePeriod
    ensures (frameCount + 1) % SamplePeriod == 0 ==>
              LastSampleFrame(totalFrames) == totalFrames + 1 - SamplePeriod &&
              LastSampleFrame(totalFrames + 1) == totalFrames + 1
    ensures (frameCount + 1) % SamplePeriod != 0 ==>
              LastSampleFrame(totalFrames + 1) == LastSampleFrame(totalFrames)
  {
    var r := totalFrames % SamplePeriod;
    if r == SamplePeriod - 1 {
      ModOf(totalFrames + 1, totalFrames / SamplePeriod + 1, 0);
      ModOf(frameCount + 1, frameCount / SamplePeriod + 1, 0);
    } else {
      ModOf(totalFrames + 1, totalFrames / SamplePeriod, r + 1);
      ModOf(frameCount + 1, frameCount / SamplePeriod, r + 1);
    }
  }

  /** The remainder of `n` is `r` when `n` is `q` periods and `r`. */
  lemma ModOf(n: int, q: int, r: int)
    requires n == SamplePeriod * q + r && 0 <= r < SamplePeriod
    ensures n % SamplePeriod == r
  {
  }

  /** A counted tick that does not sample keeps the invariant. */
  lemma QuietTick(frameCount: int, totalFrames: int, outputs: seq<Output>)
    requires SessionInvariant(frameCount, totalFrames, outputs)
    requires (frameCount + 1) % SamplePeriod != 0
    ensures SessionInvariant(frameCount + 1, totalFrames + 1, outputs)
  {
    CountTick(frameCount, totalFrames);
  }

  /** A counted tick that samples brings the total to a multiple of the period;
      writing the sample's row, with or without restarting the FPS window, keeps
      the invariant. */
  lemma SampleTick(frameCount: int, totalFrames: int, outputs: seq<Output>, reset: bool, row: Row)
    requires SessionInvariant(frameCount, totalFrames, outputs)
    requires (frameCount + 1) % SamplePeriod == 0
    requires row.frame == totalFrames + 1
    ensures SessionInvariant(if reset then 0 else frameCount + 1, totalFrames + 1, AppendRow(outputs, row))
  {
    CountTick(frameCount, totalFrames);
    if |outputs| > 0 && outputs[|outputs| - 1].open {
      var last := outputs[|outputs| - 1];
      AllSpacedAt(outputs, |outputs| - 1);
      AppendSpaced(last.rows, row);
      ReplaceLastSpaced(outputs, last.(rows := last.rows + [row]));
    }
  }

  /** Closing the open output keeps the invariant. */
  lemma CloseKeeps(frameCount: int, totalFrames: int, outputs: seq<Output>)
    requires SessionInvariant(frameCount, totalFrames, outputs)
    ensures SessionInvariant(frameCount, totalFrames, CloseLast(outputs))
  {
    if |outputs| > 0 {
      var last := outputs[|outputs| - 1];
      AllSpacedAt(outputs, |outputs| - 1);
      ReplaceLastSpaced(outputs, last.(open := false));
    }
  }

  /** With no output open, opening a new, empty one keeps the invariant, also
      when the open empties earlier outputs at its path. */
  lemma OpenKeeps(frameCount: int, totalFrames: int, outputs: seq<Output>, next: Output)
    requires SessionInvariant(frameCount, totalFrames, outputs)
    requires !(|outputs| > 0 && outputs[|outputs| - 1].open)
    requires next.rows == []
    ensures SessionInvariant(frameCount, totalFrames, Opened(outputs, next))
  {
    var kept := if next.open then Truncated(outputs, next.path) else outputs;
    OpenedEmpties(outputs, next);
    forall i | 0 <= i < |kept|
      ensures Spaced(kept[i].rows)
    {
      if kept[i].rows != outputs[i].rows {
        assert kept[i].rows == [];
      } else {
        AllSpacedAt(outputs, i);
      }
    }
    EverySpaced(kept);
    AddSpaced(kept, next);
    assert Opened(outputs, next) == kept + [next];
  }

  /** Outputs that each hold spaced rows are `AllSpaced`. */
  lemma {:induction false} EverySpaced(outputs: seq<Output>)
    requires forall i :: 0 <= i < |outputs| ==> Spaced(outputs[i].rows)
    ensures AllSpaced(outputs)
    decreases |outputs|
  {
    if |outputs| > 0 {
      var n := |outputs| - 1;
      assert forall i :: 0 <= i < n ==> outputs[..n][i] == outputs[i];
      EverySpaced(outputs[..n]);
    }
  }

  /** With no output open, resetting the counters keeps the invariant. */
  lemma ResetKeeps(frameCount: int, totalFrames: int, outputs: seq<Output>)
    requires SessionInvariant(frameCount, totalFrames, outputs)
    requires !(|outputs| > 0 && outputs[|outputs| - 1].open)
    ensures SessionInvariant(0, 0, outputs)
  {
  }

  /** What the invariant says about the rows written: in every output, row `j`
      is for a positive multiple of the period, `j` periods after the first row. */
  lemma SampledFrames(frameCount: int, totalFrames: int, outputs: seq<Output>, i: int, j: int)
    requires SessionInvariant(frameCount, totalFrames, outputs)
    requires 0 <= i < |outputs| && 0 <= j < |outputs[i].rows|
    ensures var rows := outputs[i].rows;
            rows[j].frame > 0 && rows[j].frame % SamplePeriod == 0 &&
            rows[j].frame == rows[0].frame + SamplePeriod * j
  {
    AllSpacedAt(outputs, i);
    SpacedAt(outputs[i].rows, j);
    SpacedDistance(outputs[i].rows, 0, j);
  }

  /** `path` is where a session started with `start` writes: under the latest
      logs folder when so configured, else the time-stamped default. */
  ghost predicate PathChosen(start: StartInputs, path: string)
  {
    if start.configLogs then
      exists latest :: Folders.IsLatestFolder(start.logsListing, latest) && path == OutputPath(start, latest)
    else
      path == OutputPath(start, "")
  }

  /** Chooses the output path, scanning the logs folder only when configured to. */
  method LogPath(start: StartInputs) returns (path: string)
    ensures PathChosen(start, path)
  {
    if start.configLogs {
      var latest := Folders.LatestFolder(start.logsListing);
      path := OutputPath(start, latest);
    } else {
      path := OutputPath(start, "");
    }
  }

  /** The plugin's static state: `csvFile` (as the history of files it opened),
      `frameCount`, `totalFrames`, `fps`, `lastTime` and `initialTime`. */
  class Logger {
    var outputs: seq<Output>
    var frameCount: int
    var totalFrames: int
    var fps: Fps
    var lastTime: int
    var initialTime: int

    predicate IsOpen()
      reads this
    {
      |outputs| > 0 && outputs[|outputs| - 1].open
    }

    ghost predicate Valid()
      reads this
    {
      SessionInvariant(frameCount, totalFrames, outputs)
    }

    /** The state at plugin load: no file, counters and FPS 0, clocks at their epoch. */
    constructor ()
      ensures Valid()
      ensures outputs == [] && !IsOpen()
      ensures frameCount == 0 && totalFrames == 0 && fps == ZeroFps
      ensures lastTime == 0 && initialTime == 0
    {
      outputs := [];
      frameCount := 0;
      totalFrames := 0;
      fps := ZeroFps;
      lastTime := 0;
      initialTime := 0;
    }

    /** Closes the open output, if any. */
    method Close()
      requires Valid()
      modifies this
      ensures Valid()
      ensures outputs == CloseLast(old(outputs)) && !IsOpen()
      ensures Extends(old(outputs), outputs)
      ensures frameCount == old(frameCount) && totalFrames == old(totalFrames) && fps == old(fps)
      ensures lastTime == old(lastTime) && initialTime == old(initialTime)
    {
      CloseKeeps(frameCount, totalFrames, outputs);
      CloseExtends(outputs);
      if IsOpen() {
        var last := outputs[|outputs| - 1];
        outputs := outputs[..|outputs| - 1] + [last.(open := false)];
      }
    }

    /** Plugin unload: the open output, if any, is closed. */
    method Cleanup()
      requires Valid()
      modifies this
      ensures Valid()
      ensures outputs == CloseLast(old(outputs)) && !IsOpen()
      ensures frameCount == old(frameCount) && totalFrames == old(totalFrames) && fps == old(fps)
      ensures lastTime == old(lastTime) && initialTime == old(initialTime)
    {
      Close();
    }

    /** Simulation about to start: closes any open output, then opens a new one
        at the chosen path (open only if the host could open the file) and
        starts the session clocks. The frame counters and the FPS figure are kept. */
    method OnAboutToStart(start: StartInputs)
      requires Valid()
      modifies this
      ensures Valid()
      ensures exists path :: PathChosen(start, path) &&
                             outputs == Opened(CloseLast(old(outputs)), Output(path, start.fileOpens, []))
      ensures Extends(old(outputs), outputs)
      ensures IsOpen() == start.fileOpens
      ensures frameCount == old(frameCount) && totalFrames == old(totalFrames) && fps == old(fps)
      ensures initialTime == start.now && lastTime == start.now
    {
      Close();
      var path := LogPath(start);
      OpenExtends(old(outputs), outputs, Output(path, start.fileOpens, []));
      Open(Output(path, start.fileOpens, []));
      initialTime := start.now;
      lastTime := start.now;
    }

    /** Opens a new, empty output; the previous one must have been closed. A
        successful open empties the file at that path. */
    method Open(next: Output)
      requires Valid() && !IsOpen() && next.rows == []
      modifies this
      ensures Valid()
      ensures outputs == Opened(old(outputs), next)
      ensures IsOpen() == next.open
      ensures frameCount == old(frameCount) && totalFrames == old(totalFrames) && fps == old(fps)
      ensures lastTime == old(lastTime) && initialTime == old(initialTime)
    {
      OpenKeeps(frameCount, totalFrames, outputs, next);
      if next.open {
        outputs := Truncated(outputs, next.path);
      }
      outputs := outputs + [next];
    }

    /** A sensing tick. Only the primary pass (`auxData[0] == 0`) is counted: it
        advances both frame counters by one, and when the frame counter reaches a
        multiple of `SamplePeriod` it takes a sample. A sample restarts the FPS
        window if at least a second has passed since the window began, then writes
        one row to the open output, if there is one. */
    method OnSensing(auxData0: int, tick: TickInputs)
      requires Valid()
      modifies this
      ensures Valid()
      ensures auxData0 != 0 ==> unchanged(this)
      ensures auxData0 == 0 ==> totalFrames == old(totalFrames) + 1 && initialTime == old(initialTime)
      ensures auxData0 == 0 && (old(frameCount) + 1) % SamplePeriod != 0 ==>
                frameCount == old(frameCount) + 1 && fps == old(fps) && lastTime == old(lastTime) &&
                outputs == old(outputs)
      ensures auxData0 == 0 && (old(frameCount) + 1) % SamplePeriod == 0 ==>
                Measured(old(frameCount) + 1, old(fps), old(lastTime), tick.now, frameCount, fps, lastTime) &&
                outputs == AppendRow(old(outputs), SampleRow(tick, totalFrames, fps, MillisSince(initialTime, tick.now)))
    {
      if auxData0 == 0 {
        frameCount := frameCount + 1;
        totalFrames := totalFrames + 1;
        if frameCount % SamplePeriod == 0 {
          Sample(tick);
        } else {
          QuietTick(frameCount - 1, totalFrames - 1, outputs);
        }
      }
    }

    /** The state right after a counted tick that brought `frameCount` to a
        multiple of `SamplePeriod`: the invariant held before the tick. */
    ghost predicate SampleDue()
      reads this
    {
      frameCount % SamplePeriod == 0 && SessionInvariant(frameCount - 1, totalFrames - 1, outputs)
    }

    /** A sample: measures the FPS figure, serialises the scene's objects, and
        writes one row to the open output, if there is one. */
    method Sample(tick: TickInputs)
      requires SampleDue()
      modifies this
      ensures Valid()
      ensures totalFrames == old(totalFrames) && initialTime == old(initialTime)
      ensures Measured(old(frameCount), old(fps), old(lastTime), tick.now, frameCount, fps, lastTime)
      ensures outputs == AppendRow(old(outputs), SampleRow(tick, totalFrames, fps, MillisSince(initialTime, tick.now)))
    {
      ghost var (fc, total, outs) := (frameCount - 1, totalFrames - 1, outputs);
      var currentTime := tick.now;
      var systemTime := MillisSince(initialTime, currentTime);
      ghost var reset := SecondElapsed(lastTime, currentTime);
      MeasureFps(currentTime);
      var objectsData := ActiveObjects.SerializeObjects(tick.objects);
      var collisionCount := 0;
      if tick.collision.Some? {
        collisionCount := tick.collision.value;
      }
      var row := Row(tick.timestamp, totalFrames, tick.stepSizeMs, tick.simTimeMs, tick.realTimeMs,
                     systemTime, fps, objectsData, collisionCount);
      WriteRow(row);
      SampleTick(fc, total, outs, reset, row);
    }

    /** Restarts the FPS window when at least a second has passed since it began:
        the figure becomes the window's frame count over its length, and the frame
        counter and the window start are reset. */
    method MeasureFps(now: int)
      modifies this
      ensures Measured(old(frameCount), old(fps), old(lastTime), now, frameCount, fps, lastTime)
      ensures outputs == old(outputs) && totalFrames == old(totalFrames) && initialTime == old(initialTime)
    {
      if SecondElapsed(lastTime, now) {
        fps := Quotient(frameCount, now - lastTime);
        frameCount := 0;
        lastTime := now;
      }
    }

    /** Writes one row to the open output; with none open, nothing is written. */
    method WriteRow(row: Row)
      modifies this
      ensures outputs == AppendRow(old(outputs), row)
      ensures frameCount == old(frameCount) && totalFrames == old(totalFrames) && fps == old(fps)
      ensures lastTime == old(lastTime) && initialTime == old(initialTime)
    {
      if IsOpen() {
        var last := outputs[|outputs| - 1];
        outputs := outputs[..|outputs| - 1] + [last.(rows := last.rows + [row])];
      }
    }

    /** Script state destroyed: closes the open output, if any, and resets both
        frame counters and the FPS figure. */
    method OnScriptStateDestroyed()
      requires Valid()
      modifies this
      ensures Valid()
      ensures outputs == CloseLast(old(outputs)) && !IsOpen()
      ensures Extends(old(outputs), outputs)
      ensures frameCount == 0 && totalFrames == 0 && fps == ZeroFps
      ensures lastTime == old(lastTime) && initialTime == old(initialTime)
    {
      Close();
      ResetKeeps(frameCount, totalFrames, outputs);
      frameCount := 0;
      totalFrames := 0;
      fps := ZeroFps;
    }

    /** The message dispatcher. Besides keeping `Valid()`: other messages change
        nothing; only script-state-destroyed lowers `totalFrames`, and nothing else
        raises it by more than one; the outputs only ever extend (see `Extends`):
        a closed output is written again only by being emptied when a later
        session opens the same path. */
    method HandleMessage(msg: Message)
      requires Valid()
      modifies this
      ensures Valid()
      ensures msg.OtherMessage? ==> unchanged(this)
      ensures !msg.ScriptStateDestroyed? ==> old(totalFrames) <= totalFrames <= old(totalFrames) + 1
      ensures msg.ScriptStateDestroyed? ==> totalFrames == 0 && frameCount == 0 && fps == ZeroFps && !IsOpen()
      ensures Extends(old(outputs), outputs)
    {
      match msg
      case SimulationAboutToStart(start) =>
        OnAboutToStart(start);
      case SimulationSensing(auxData0, tick) =>
        ghost var before := outputs;
        OnSensing(auxData0, tick);
        AppendRowExtends(before, SampleRow(tick, totalFrames, fps, MillisSince(initialTime, tick.now)));
        ExtendsRefl(before);
      case ScriptStateDestroyed =>
        OnScriptStateDestroyed();
      case OtherMessage =>
    }
  }
}
