# sim_logger — a Dafny model of the CoppeliaSim logging plugin's core

The `sim_logger` plugin writes one CSV file per simulation run. It reacts to three
simulator messages in `simMsg`:

- **about to start**: close any open file, pick the output path, open the file and start
  the session clocks. The path is `simLogger.csv` under `coppelia/` of the most recently
  modified folder of `$NAAD_WS_DIR/logs` when `NAAD_CONFIG_LOGS` is set. Otherwise it is a
  time-stamped `simLogger_<date>.csv` under `$NAAD_WS_DIR/logs/coppelia/`.
- **sensing**: only the primary pass (`auxData[0] == 0`) counts. Each one advances
  `frameCount` and `totalFrames`. Every time `frameCount` reaches a multiple of 50 the
  plugin takes a sample:
  - it refreshes the FPS figure if at least a second has passed since the FPS window began;
  - it serialises the scene's objects to a JSON-like array;
  - it writes one row to the open file.
- **script state destroyed**: close the file and reset both counters and the FPS figure.

The project has these files:

- `wrappers.dfy`: the `Option` type.
- `folders.dfy`: `get_latest_folder` as an imperative scan over a directory listing. It is
  proved against a declarative definition of the latest folder.
- `active_objects.dfy`: the "Active Objects" column.
  - `ObjectsJson` is its specification.
  - `SerializeObjects` is the string-building loop, proved to produce `ObjectsJson`.
- `objects_decoding.dfy`: a reader for that column. The round-trip lemma shows that the
  text records every object, in order, with its seven pose numbers.
- `sim_logger.dfy`: the plugin's static state as the class `Logger`, with one method per
  message.
  - The open CSV stream is modelled as the history of files the plugin opened: path,
    still-open flag and data rows.
  - `Valid()` is the session invariant that every handler keeps:
    - only the newest file can be open;
    - the two counters agree modulo 50;
    - the rows of every file are for consecutive multiples of 50 frames.

Clock readings, the environment, the directory listing, the outcome of opening the file and
the host's scene queries are inputs to the handlers. Clock readings are integer nanoseconds.

The about-to-start handler does not reset `frameCount` or `totalFrames`; only
script-state-destroyed does (`src/sim_logger.cpp:254-256`). So
`SimLogger.Logger.OnAboutToStart` keeps both counters and the FPS figure.

Opening the output file for writing empties any file already at that path
(`src/sim_logger.cpp:120`). This happens when a later run chooses the same path: in
configured mode, while no newer logs folder appears; in dated mode, when two runs start in
the same second. The model records this. A successful open empties every earlier history
entry with the same path (`SimLogger.Opened`).

## Model

| member | source | states |
|---|---|---|
| Folders.LatestFolder | src/sim_logger.cpp:26-51 | The result is the path of the first-listed directory whose time is the strictly greatest positive time: directories listed earlier are strictly older and directories listed later are no newer. With no directory newer than the epoch the result is "". |
| Folders.LatestIsUnique | src/sim_logger.cpp:43-46 | At most one entry satisfies the "latest" condition, because ties keep the first one. |
| Folders.LatestFolderIsUnique | src/sim_logger.cpp:26-51 | The scan's result is determined by the listing. |
| ActiveObjects.SerializeObjects | src/sim_logger.cpp:181-213 | The string the loop builds equals `ObjectsJson`. That is "[]" for a null handle array. Otherwise it is "[", then each object's record in order with ", " between records and none after the last, then "]". |
| ActiveObjects.ObjectsJsonShape | src/sim_logger.cpp:183-213 | The column always starts with '[' and ends with ']'. It is exactly "[]" iff the query returned null or no objects. |
| ActiveObjects.RecordText | src/sim_logger.cpp:192-206 | The record written piece by piece (alias part, "pose" opener, seven numbers separated by ", ", closing "]}") is the object's record. |
| ActiveObjects.PoseText | src/sim_logger.cpp:198-205 | The seven pose numbers written with ", " between consecutive ones are the join of the pose. |
| ActiveObjects.JoinSnoc | src/sim_logger.cpp:208-210 | Joining one more item adds exactly one separator, before that item. |
| ActiveObjects.JoinPrefix | src/sim_logger.cpp:198-205 | Each further pose number extends the join by a separator and that number. |
| ActiveObjects.AppendRecord | src/sim_logger.cpp:189-211 | Adding an object appends its record, preceded by ", " unless it is the first. |
| ActiveObjects.RecordStep | src/sim_logger.cpp:189-211 | One iteration of the loop extends the bracketed join by one record. |
| ActiveObjects.NonEmptyJoin | src/sim_logger.cpp:208-212 | A join of non-empty records is empty iff there are no records. |
| ObjectsDecoding.ReadWritten | src/sim_logger.cpp:181-213 | Round trip: reading the column gives back the written objects. A null handle array reads as no objects. Aliases must hold no '"' and pose numbers no ',' or ']'. |
| ObjectsDecoding.WrittenIsInjective | src/sim_logger.cpp:181-213 | Two readable object lists with the same column text are equal. |
| ObjectsDecoding.ReadRecordOf | src/sim_logger.cpp:192-206 | One record followed by any text reads back as its object and that text. |
| ObjectsDecoding.ReadRecordsOf | src/sim_logger.cpp:189-212 | The records joined by ", " and closed by "]" read back as the object list. |
| ObjectsDecoding.ReadNumbersOf | src/sim_logger.cpp:198-205 | The pose numbers joined by ", " and closed by "]" read back as the numbers. |
| ObjectsDecoding.ReadLastRecord | src/sim_logger.cpp:206-212 | The column body for a single object (its record, closed by "]") reads back as that one-object list. |
| ObjectsDecoding.ReadConsRecords | src/sim_logger.cpp:189-212 | When the records of all objects but the first read back, the records of all of them, with the first one in front, read back as the whole list. |
| ObjectsDecoding.ReadNextRecord | src/sim_logger.cpp:208-210 | A record, the separator and any rest read as that object followed by the rest's objects, and fail exactly when the rest does not read. |
| ObjectsDecoding.ReadLastNumber | src/sim_logger.cpp:205 | The last pose number, closed by "]", reads as one number. |
| ObjectsDecoding.ReadNextNumber | src/sim_logger.cpp:199-204 | A pose number, ", " and k readable numbers read as k + 1 numbers. |
| ObjectsDecoding.SplitAt | src/sim_logger.cpp:192-193 | Part of the reader of the text written at these lines (the source itself parses nothing): a split puts no delimiter in its first part, and the parts rebuild the input around the delimiter. No split means the delimiter is absent. |
| ObjectsDecoding.SplitAtFirst | src/sim_logger.cpp:192-193 | Part of the reader of the text written at these lines (the source itself parses nothing): text free of the delimiter, then the delimiter, then anything, splits back into those two parts. |
| ObjectsDecoding.DropPrefix | src/sim_logger.cpp:193 | Part of the reader of the text written at these lines (the source itself parses nothing): a successful drop leaves the rest after the literal. |
| ObjectsDecoding.DropPrefixOf | src/sim_logger.cpp:193 | Part of the reader of the text written at these lines (the source itself parses nothing): a literal followed by any text drops back to that text. |
| ObjectsDecoding.ReadNumbers | src/sim_logger.cpp:198-205 | Part of the reader of the text written at these lines (the source itself parses nothing): a successful read of k numbers yields exactly k numbers and consumes input. |
| ObjectsDecoding.ReadRecord | src/sim_logger.cpp:192-206 | Part of the reader of the text written at these lines (the source itself parses nothing): a successful record read consumes input. |
| SimLogger.AtMostOneOpen | src/sim_logger.cpp:97-120 | Under the invariant at most one file is open, because every open is preceded by a close. |
| SimLogger.CloseLast | src/sim_logger.cpp:97-99 | Closing leaves every file closed and every path and row list as it was. |
| SimLogger.AppendRowOnlyExtendsOpen | src/sim_logger.cpp:228-243 | A row write changes only the open file, by appending exactly that row. With no file open nothing is written. |
| SimLogger.AppendRowExtends | src/sim_logger.cpp:228-243 | A row write only extends the files' history. |
| SimLogger.CloseExtends | src/sim_logger.cpp:97-99 | Closing only extends the files' history. |
| SimLogger.OpenExtends | src/sim_logger.cpp:120 | Opening a new file after a close only extends the history. Earlier entries at the same path are emptied when the open succeeds. |
| SimLogger.OpenedEmpties | src/sim_logger.cpp:120 | A successful open empties exactly the earlier entries at its path and keeps every other entry. A failed open leaves them all as they were. In both cases the new entry is added last. |
| SimLogger.MillisSince | src/sim_logger.cpp:161-162 | The elapsed milliseconds are the elapsed nanoseconds truncated toward zero: bounded within one millisecond, on the side of zero. |
| SimLogger.CountTick | src/sim_logger.cpp:153-156 | A counted tick keeps `frameCount` ≡ `totalFrames` (mod 50). It samples exactly when the total reaches a multiple of 50, and then the previous sample frame is 50 earlier. Otherwise the last sample frame is unchanged. |
| SimLogger.QuietTick | src/sim_logger.cpp:153-156 | A counted tick that does not sample keeps the session invariant. |
| SimLogger.SampleTick | src/sim_logger.cpp:153-243 | A sampling tick keeps the session invariant, whether or not the FPS window restarts. |
| SimLogger.CloseKeeps | src/sim_logger.cpp:97-99 | Closing keeps the session invariant. |
| SimLogger.OpenKeeps | src/sim_logger.cpp:120 | With no file open, opening a new empty one keeps the session invariant. |
| SimLogger.ResetKeeps | src/sim_logger.cpp:250-256 | After the close, resetting both counters keeps the session invariant. |
| SimLogger.SampledFrames | src/sim_logger.cpp:153-231 | In every file, row j is for a positive multiple of 50, exactly 50·j frames after the file's first row. |
| SimLogger.SpacedDistance | src/sim_logger.cpp:156 | Rows of one file are 50 frames apart per position. |
| SimLogger.SpacedAt | src/sim_logger.cpp:156 | Each row is for a positive multiple of 50, 50 frames after the row before it. |
| SimLogger.LogPath | src/sim_logger.cpp:102-117 | The path is `<latest folder>/coppelia/simLogger.csv` when `NAAD_CONFIG_LOGS` is set. Otherwise it is `<NAAD_WS_DIR>/logs/coppelia/simLogger_<date>.csv`. |
| SimLogger.Logger.constructor | src/sim_logger.cpp:14-18 | At load: no file, both counters 0, FPS 0. |
| SimLogger.Logger.Close | src/sim_logger.cpp:97-99 | Closes the open file, if any, and changes nothing else. |
| SimLogger.Logger.Cleanup | src/sim_logger.cpp:84-90 | Plugin unload closes the open file, if any. |
| SimLogger.Logger.OnAboutToStart | src/sim_logger.cpp:94-144 | Closes any open file and opens a new empty file at the chosen path. The file is open iff the host could open it, and a successful open empties earlier files at that path. Both clocks are set to now. Counters and FPS are kept. |
| SimLogger.Logger.Open | src/sim_logger.cpp:120 | Adds the new file to the history when no file is open; a successful open first empties earlier entries at its path. The invariant is kept. |
| SimLogger.Logger.OnSensing | src/sim_logger.cpp:146-245 | Non-primary passes change nothing. A primary pass adds 1 to `totalFrames`. Off a multiple of 50 it adds 1 to `frameCount` and writes nothing. On a multiple it measures FPS and appends exactly the sample row to the open file; the row holds the current `totalFrames`, the new FPS figure, the ms since start and the objects column. |
| SimLogger.Logger.Sample | src/sim_logger.cpp:156-244 | The sample measures FPS and writes one row built from the tick's inputs; the invariant is restored. |
| SimLogger.Logger.MeasureFps | src/sim_logger.cpp:165-172 | If at least 1 s has passed since the window began, FPS becomes the window's frames over its length, `frameCount` becomes 0 and the window restarts now. Otherwise nothing changes. |
| SimLogger.Logger.WriteRow | src/sim_logger.cpp:228-243 | Appends the row to the open file only; with none open nothing is written. |
| SimLogger.Logger.OnScriptStateDestroyed | src/sim_logger.cpp:248-257 | Closes the file and resets `frameCount`, `totalFrames` and FPS to 0. |
| SimLogger.Logger.HandleMessage | src/sim_logger.cpp:92-258 | Every message keeps the invariant, and other messages change nothing. `totalFrames` rises by at most one per message and drops only on script-state-destroyed. The file history only extends. A closed entry is never written again; it is only emptied when a later run successfully opens the same path. |

## Left out

- `simInit` (loading the simulator library and its version check) and the library unload in `simCleanup`. They are foreign calls; only the file close of `simCleanup` is modelled.
- The CSV header line and the error message on a failed open. They are fixed text and console output. The header is written even when the open failed, which the stream ignores; the model does not record the header.
- `getCurrentDateTime`: its local-time formatting is an input string (`dateTime`, `timestamp`).
- Reading `NAAD_WS_DIR` and `NAAD_CONFIG_LOGS` from the environment. These are inputs. A missing `NAAD_WS_DIR` (a null `getenv` result assigned to a string) is undefined behaviour in the code and is not modelled.
- The directory iteration and the conversion of each entry's last-write time to `time_t`. The listing is an input with one time per entry, and an iteration error is not modelled.
- Floating point. `SimLogger.Logger.MeasureFps` keeps the FPS figure as the pair (frames, window length) instead of the `float` quotient. The "one second elapsed" test compares exact nanoseconds instead of `float` seconds, so a window within float rounding of one second may decide differently.
- `SimLogger.MillisSince`: computed from the exact nanosecond difference, whereas the code first converts the duration to `float` seconds.
- The simulation-to-real time factor (`sim_rtf`): the code computes it and never uses it.
- The number formatting of `std::to_string` for step size, times and pose values. They are input strings here.
- The scene queries (`simGetObjectsInTree`, `simGetObjectAlias`, `simGetObjectPose`, `simGetObject`, `simCheckCollision`) and `simReleaseBuffer`. Their results are inputs, and an error return of the pose query is not modelled.
- The three empty columns of each data row (RTF, OS RTF and render FPS) are not fields of `Row`. The code writes nothing into them.
- The two clock reads at the end of about-to-start are taken as the same instant.
- `SimLogger.Logger.OnSensing`: the counters are unbounded integers. The code's 32-bit `int` counters would overflow after 2^31 - 1 counted ticks; this is not modelled.
- Multi-message scenarios (a whole run from about-to-start to destroy) appear only through the invariant that every handler keeps. No lemma replays a concrete message sequence.
