# mythtv2dsvideo controller core, in Dafny

mythtv2dsvideo is a small Mac OS X application written in RubyCocoa. It
lists the recordings on a MythTV backend, fetches a thumbnail for each one
that has none cached,
and streams a chosen recording into the `dsvideo` encoder to produce a
Nintendo DS video file. Nearly all of `AppController.rb` is UI glue, threads,
a subprocess and a network client. This project models the four pieces of
sequential logic underneath and proves their properties:

- **Output name** (`OutputName`). The encoder's output base name is the
  title, plus `"_"` and the subtitle when the subtitle is non-empty. Every
  maximal run of characters outside `[A-Za-z0-9]` then becomes one `_`.
  `Sanitize` is the recursive definition of that substitution, and
  `SanitizeScan` is a left-to-right loop proved equal to it.
- **Encode stream and start/stop toggle** (`EncodeStream`, `EncodeControl`).
  - The stream is a fold over the chunks the backend yields. Each step
    writes a chunk, adds its length to the running total, and only then
    polls the stop flag. The stream is a sequence of byte chunks.
  - The moment the flag is first seen is an optional index `stopAt`.
    Once seen, the flag stays seen for the rest of the stream: the only
    reset (`:226`) runs after the streaming block has returned. The flag
    can be raised at other times too: by a Stop after `:226`, or by a
    quit confirmed after the job has ended. It also stays raised after a
    failed job that skipped the reset.
  - The toggle is a two-field state machine: whether a job is live, and
    the stop flag.
- **Thumbnail prefetch walk** (`Prefetch`, `PrefetchWalk`).
  - The walk goes through the recording list in order and skips every
    recording whose cache file already exists.
  - For every other recording it shows `"Generating preview i/N"` and then
    writes the fetched preview under the key
    `/tmp/myth2dsvideo_thumb_<filename>.png`.
  - The file system is a map from keys to entries. The fetch is abstract:
    `failOn` names the ordinal of the first fetch that raises, if any.
  - The walk's properties are proved for any key template
    (`KeyTemplate`). `PrefetchThumbnails` runs the walk with the
    application's own template, `Template`.
- **Display helpers** (`Display`). These are the whole minutes shown for a
  duration, and the unit (B, kB, MB, GB) chosen for a file size.

`Base` holds `Option` and a byte type, `Catalog` the recording record, and
`Decimal` the decimal spelling used by `%d` and string interpolation.

A failed thumbnail fetch is modelled as the code behaves. `File.open(path,
'w')` (`AppController.rb:127`) creates the file before `preview_image` runs,
so a fetch that raises leaves an empty entry under its key (`Truncated`).
The exception also leaves the `each_with_index` block, which ends the walk.

`OutputName.IsAlnum` is the ASCII class `[A-Za-z0-9]`. With `$KCODE`
unset, Ruby 1.8 applies the regular expression byte by byte. For UTF-8 titles the maximal runs of
non-alphanumeric bytes are exactly the runs of non-alphanumeric characters,
so the character-level model derives the same name.

## Model

| member | source | states |
|---|---|---|
| OutputName.Sanitize | AppController.rb:202 | The `gsub!(/[^A-Za-z0-9]+/, "_")` substitution: an alphanumeric is copied, and a maximal run of other characters becomes one `_`. The body is the model of the cited lines. |
| OutputName.Joined | AppController.rb:200-201 | The title, followed by `_` and the subtitle unless the subtitle is empty. The body is the model of the cited lines. |
| OutputName.DeriveName | AppController.rb:199-202 | With a non-empty subtitle the name is the substitution applied to title, `_` and subtitle joined. With an empty subtitle it is the substituted title alone. The name holds only `[A-Za-z0-9_]`, never contains `__`, and is left unchanged by a second substitution. Its alphanumerics, in order, are the title's followed by the subtitle's. |
| OutputName.RecordingName | AppController.rb:199-202 | The name derived from the selected recording's own title and subtitle holds only `[A-Za-z0-9_]` and no `__`. Its alphanumerics are the title's followed by the subtitle's. |
| OutputName.SanitizeSplitsAfterAlnum | AppController.rb:202 | When the first part ends in an alphanumeric (or is empty), substituting a concatenation is the same as substituting each part and concatenating. |
| OutputName.JoinSurvives | AppController.rb:201-202 | When the title ends and the subtitle starts with an alphanumeric, the joining `_` survives the substitution as the only character between the two substituted parts. |
| OutputName.DeriveSeparatesWords | AppController.rb:199-202 | For such a title and subtitle, the name is the substituted title, one `_`, then the substituted subtitle. |
| OutputName.SanitizeShape | AppController.rb:202 | The substitution never lengthens its input, yields empty only for empty input, starts with `_` exactly when the input starts outside `[A-Za-z0-9]`, and yields only name characters. |
| OutputName.SanitizeNoDoubleUnderscore | AppController.rb:202 | Runs are maximal, so the result never holds two consecutive underscores. |
| OutputName.SanitizeFixesCleanNames | AppController.rb:202 | Any string of name characters without `__` is a fixed point of the substitution. |
| OutputName.SanitizeIdempotent | AppController.rb:202 | Applying the substitution twice is the same as applying it once. |
| OutputName.SanitizeKeepsAlnums | AppController.rb:202 | The substitution keeps every alphanumeric character, in order. |
| OutputName.AlnumsOfJoined | AppController.rb:200-201 | The joining `"_"` adds no alphanumerics. Joining adds nothing at all when the subtitle is empty. |
| OutputName.SanitizeScan | AppController.rb:202 | A single left-to-right pass, emitting one `_` when a run starts and copying alphanumerics, computes exactly the recursive substitution. |
| OutputName.SanitizeWord | AppController.rb:202 | An all-alphanumeric prefix passes through unchanged. |
| OutputName.SanitizeRun | AppController.rb:202 | A non-empty run of other characters up to the next alphanumeric, or up to the end, becomes one `_`. |
| OutputName.SanitizeFourWords | AppController.rb:202 | Four words, each followed by a separator run, come out as the words each followed by one `_`. |
| OutputName.MondayGameExample | AppController.rb:199-202 | The title `Monday's Game: Live!` with no subtitle yields `Monday_s_Game_Live_`. |
| EncodeStream.Stream | AppController.rb:210-220 | The written chunks are a prefix of the stream. With no stop before the last chunk, every chunk is written. When the flag is first seen after chunk k, exactly chunks 0..k are written, so the chunk during which the flag is seen is still written. The final total is the summed length of the written chunks, and the total after each write is the running total of the chunks so far. |
| EncodeStream.RunningTotalsSpec | AppController.rb:210-215 | There is one running total per written chunk. The total after chunk n is the summed length of chunks 0..n, and the totals never decrease. |
| EncodeStream.EncoderInput | AppController.rb:213-215 | The bytes the encoder receives are a prefix of the recording's bytes, and their count is the running total. |
| EncodeStream.CompleteStreamReachesSize | AppController.rb:213-216 | A stream whose flag is never raised writes every chunk. The encoder receives all `size` bytes of the recording, and the running total ends at `size`. |
| EncodeStream.ConcatLength | AppController.rb:215 | The byte count of the written chunks is the sum of their lengths. |
| EncodeControl.Press | AppController.rb:191-196 | The button handler: with a live job, raise the flag and return; otherwise launch a job. The body is the model of the cited lines. |
| EncodeControl.JobFinished | AppController.rb:223-227 | The normal end of a job: the job is over and the flag is cleared at `:226`. The body is the model of the cited lines. |
| EncodeControl.JobDied | AppController.rb:196-228 | The intended behaviour, not the lines as written: a job that dies on an exception also clears the flag. It is the corrected half of the finding below. The body is the model of the cited lines. |
| EncodeControl.Apply | AppController.rb:191-228 | One event under the corrected failure path: the intended behaviour, not the lines as written. A press, a normal end, or a failure that clears the flag. The body is the model of the cited lines. |
| EncodeControl.JobDiedAsWritten | AppController.rb:196-228 | The thread block has no `rescue` or `ensure`, so an exception ends the job without the reset at `:226`. The body is the model of the cited lines. |
| EncodeControl.ApplyAsWritten | AppController.rb:191-228 | One event under the code as written: a press, a normal end, or a failure that keeps the flag. The body is the model of the cited lines. |
| EncodeControl.WindowShouldClose | AppController.rb:77 | The window closes at once unless an encode thread is alive. The body is the model of the cited lines. |
| EncodeControl.QuitConfirmed | AppController.rb:89-91 | Confirming the quit dialog raises the stop flag. The time-limited join, the backend close and the window close that follow it (`:94-99`) are not modelled. The body is the model of the cited lines. |
| EncodeControl.PressToggles | AppController.rb:191-196 | A press while a job is live raises the flag and launches nothing. A press while idle launches a job and leaves the flag alone. |
| EncodeControl.JobEndClearsFlag | AppController.rb:223-226 | A normal end returns to idle with the flag cleared. The exception path of the code as written returns to idle but keeps the flag. |
| EncodeControl.ActiveTracksHistory | AppController.rb:191-226 | After a non-empty history of presses, normal ends and failures, a job is live exactly when the last event was a press. This holds under both the code as written and the corrected failure path. |
| EncodeControl.WindowCloseGuard | AppController.rb:76-87 | Starting from launch, after any history, the window may close at once exactly when the last event is not a press, the empty history included. |
| EncodeControl.QuitStopsStream | AppController.rb:89-91 | Confirming the quit dialog while a job is live raises the flag and leaves the job live. The stream, which polls the flag after each write (`:213-219`), then writes exactly the chunks up to and including the one in progress, provided the job reaches its poll within the two-second join. |
| EncodeControl.ApplyKeepsSettled | AppController.rb:191-226 | No single event, under the corrected failure path, leaves the controller idle with a raised flag. |
| EncodeControl.RunKeepsSettled | AppController.rb:191-226 | Under the corrected failure path, after any history of presses, normal ends and failures, a press that launches a job launches it with the flag cleared. |
| EncodeControl.StaleFlagAsWritten | AppController.rb:191-226 | Under the code as written, the sequence start, stop, stream failure leads the next press to launch a job with the flag already raised. |
| EncodeControl.StaleFlagTruncates | AppController.rb:213-219 | That job writes only the first chunk of its recording and then stops. |
| Prefetch.Template | AppController.rb:35 | `THUMBNAIL_LOCATION`: the prefix `/tmp/myth2dsvideo_thumb_` and the suffix `.png` around the `%s`. The body is the model of the cited lines. |
| Prefetch.ThumbnailKey | AppController.rb:35 | The cache path: the filename placed between the template's prefix and suffix. The body is the model of the cited lines. |
| Prefetch.ProgressMessage | AppController.rb:126 | The text `Generating preview <position>/<count>`. The body is the model of the cited lines. |
| Prefetch.ThumbnailKeyInjective | AppController.rb:35 | Distinct filenames have distinct cache keys. |
| Prefetch.FilenameOfKeyInverts | AppController.rb:35 | The filename can be read back out of its key. |
| Prefetch.KeysUpToMembership | AppController.rb:124-125 | A filename's key is among the first n recordings' keys exactly when one of them has that filename. |
| Prefetch.CandidatesSpec | AppController.rb:124-127 | The fetched positions are strictly increasing and lie in 1..n. A position appears exactly when its key was not cached beforehand and no earlier recording has the same filename. |
| Prefetch.CandidatesPrefix | AppController.rb:124-127 | The fetches among the first m recordings are a prefix of those among the first n, for m ≤ n. |
| Prefetch.FetchedFilenamesDistinct | AppController.rb:125-127 | No filename is fetched twice, even when filenames repeat. |
| Prefetch.UncachedIsFetched | AppController.rb:125-127 | Every recording without a cached thumbnail has its filename fetched, at its first occurrence. |
| Prefetch.ProgressMessageInjective | AppController.rb:126 | Distinct positions give distinct progress messages. |
| Prefetch.AnnouncementsDistinct | AppController.rb:124-126 | When the positions shown increase strictly, the progress texts shown are pairwise distinct. |
| Prefetch.WalkStep | AppController.rb:125 | At each step, the key is already present exactly when the recording is not a fetch candidate. |
| Prefetch.SkipKeepsWalk | AppController.rb:125 | Skipping a cached recording keeps the walk's invariant. |
| Prefetch.FetchKeepsWalk | AppController.rb:126-127 | A successful fetch emits its 1-based position and stores the preview under the new key. |
| Prefetch.FetchAbortsWalk | AppController.rb:127 | A fetch that raises leaves an empty entry under its key. |
| Prefetch.FinishedWalk | AppController.rb:124-129 | A walk that visited every recording emitted every candidate position. Every recording's key is now present, old entries are untouched, and new entries are previews of their own filenames. |
| Prefetch.AbortedWalk | AppController.rb:124-129 | A walk stopped by a raising fetch emitted a prefix of the candidate positions that ends at the failing one, and left old entries untouched. |
| PrefetchWalk.VisitRecording | AppController.rb:125-127 | One iteration either skips, fetches, or fails and aborts, keeping the walk's state description. |
| PrefetchWalk.Walk | AppController.rb:124-129 | The loop ends with every recording visited, or with the walk aborted at the failing fetch. |
| PrefetchWalk.PrefetchThumbnails | AppController.rb:124-129 | The walk aborts exactly when the failing ordinal is below the number of candidates. The emitted positions are all candidates, or the prefix up to the failing fetch. The texts shown are the progress messages for those positions, in order and pairwise distinct. The idle status shown on every exit path is not included. Keys already present keep their entries. After a full walk every recording's key is present and every new entry holds its own preview. |
| Display.ScaleSize | AppController.rb:231-240 | Convert the size to a number and divide by 1024 while it is at least 1023, at most three times, stopping at GB. The body is the model of the cited lines. |
| Display.DurationLabel | AppController.rb:243 | The `"%d minutes"` text for the whole minutes of a duration. The body is the model of the cited lines. |
| Display.ListedSize | AppController.rb:172 | The size in a recording's listing cell is shown in the unit the integer thresholds pick for its file size, with a value below 1023 unless the unit is GB. |
| Display.ListedDuration | AppController.rb:172 | The duration in a recording's listing cell is the minutes label of its duration. The body is the model of the cited lines. |
| Display.Minutes | AppController.rb:242-244 | The minutes shown are the floor of the duration over 60: `60*m <= duration < 60*m + 60`. |
| Display.DurationLabelReadsBack | AppController.rb:243 | Equal labels mean equal minute counts. |
| Display.UnitFor | AppController.rb:231-240 | B exactly below 1023, kB exactly in [1023, 1023·1024), MB exactly in [1023·1024, 1023·1024²), GB otherwise. |
| Display.ScaleSizeMatchesThresholds | AppController.rb:231-240 | The repeated division by 1024 picks the unit the integer thresholds pick. The shown value is the size over that unit's factor, and it stays below 1023 for every unit but GB. |
| Decimal.FromNat | AppController.rb:126 | The decimal spelling `#{}` gives a natural number: at least one digit, only digits, and no leading zero except for 0 itself. |
| Decimal.FromInt | AppController.rb:243 | The `%d` spelling of an integer: it starts with `-` exactly when the integer is negative. |
| Decimal.ToNatFromNat | AppController.rb:126 | Reading back the decimal spelling of a number gives the number. |
| Decimal.FromNatInjective | AppController.rb:126 | Distinct numbers have distinct spellings. |
| Decimal.FromIntInjective | AppController.rb:243 | Distinct integers have distinct `%d` spellings, including negatives. |

## Left out

- The Cocoa UI (outlets, the table data source, alerts, sheets, button titles and progress-bar updates) is presentation only.
- Threads, `Thread.start` and the two-second `join` on quit are not modelled. The stop flag is a sequential input (`stopAt`), and the race between the button and the streaming thread is reduced to the index at which the flag is first seen.
- The `Open3.popen3` launch of the encoder and the shell command template are a foreign process and a shell string.
- The MythTV backend client (`query_recordings`, `stream`, `preview_image`, `close`) is not part of this model. The stream is a given chunk sequence, and a preview is represented by the filename it was fetched for.
- The failure to open the preview connection (`:122`) is left out. In that case `preview_image_connection` is nil in the `ensure` clause.
- The thumbnail file system is a map from keys to entries. `File.exists?` is key membership.
- EncodeControl.QuitStopsStream: assumes the job reaches its poll after the chunk in progress. The two-second `join` time-out (`:94`), the backend close (`:98`) and the window close that ends the application (`:99`, `:72-74`) are not modelled. A job blocked in a write or a network read past the time-out may hand the encoder only part of that chunk, or raise under the closed backend.
- The float percentage and all `"%.2f"` formatting (`:216-218`, `:233-239`) are left out as floating point. The scaled size is modelled with exact reals. These agree with the source's doubles while |size| ≤ 2^53, where `size.to_f` is exact: division by 1024 is then exact and the thresholds are representable.
- The date formatting with `strftime` in the table data source is presentation.
- The in-place mutation of the recording's title by `gsub!` when the subtitle is empty is left out. The model computes the derived name as a pure value.
- The corrected failure path treats the end of a job (`:223-227`) as one atomic step. A Stop pressed after `:226` has cleared the flag, but before the thread exits, sees the thread alive and raises the flag again, so the next job still starts stopped. Clearing the flag when a job is launched (`:196`) would close that window too; the model does not cover it.
- Display.Minutes: durations are unbounded integers, and Ruby's integer division rounds toward negative infinity like Dafny's for the divisor 60.

## Findings

| source | as written | input that shows it | evidently intended | confidence | as-written member | corrected member |
|---|---|---|---|---|---|---|
| AppController.rb:191-226 | The stop flag is cleared only after the stream block returns normally (`:226`). An exception from `stream` or from the encoder pipe ends the thread with the flag still raised. | Start an encode, press Stop, and the stream raises before the next poll. The next Start launches a job that writes one chunk and stops at once. | Every end of a job, normal or not, clears the flag, so a new job starts with it cleared. | not executed | EncodeControl.StaleFlagAsWritten | EncodeControl.RunKeepsSettled |
