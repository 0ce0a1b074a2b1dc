# ThinkPad fan control: disk-temperature probe and polling loop

This project models the core of `FanControl.cpp` from the ThinkPad fan-control
daemon. That core contains:

- the drive model-name matcher, where `.` matches any one character;
- the normalisation of the sysfs model text: newlines are removed, then only the last word is kept;
- the lookup of that word in the fixed allow-list of Hitachi models;
- the decoding of the temperature byte that the vendor drive command returns;
- the polling loop, which re-reads the disk temperature on every eighth 3-second iteration, trying `hda` first and then `sda`;
- the commands sent to the ACPI `fan` device: `watchdog 9` at start, then `enable` and `watchdog 0` at cleanup. In a dry run each send succeeds without touching the device.

Hardware reads are inputs to the model:

- The model file of a device is an `Option<string>`. `None` means the file cannot be opened, for any reason. Each character of the text stands for one byte of the file, so the length comparison in `ModelPattern.Matches` counts bytes, as the source's `std::string` does.
- The vendor-command response is an `Option<byte>`. `None` means `open` or `ioctl` failed.
- The polling loop takes an oracle that gives these inputs per device name and per iteration.
- A write to the ACPI device is a boolean that says whether the device file opened and the stream reported no failure after the command was written to it.
- Sent commands are recorded in a command log, and probed disks in a probe log. No files are written.

Modules:

- `Wrappers`: `Option`.
- `Decimal`: rendering of the watchdog seconds in decimal.
- `ModelPattern`: the matcher and the allow-list.
- `ModelName`: normalisation. Removing newlines is done in place on a character buffer, the way `erase(remove(...))` works. The last space is found by a backward scan.
- `HitachiTemp`: the byte decoder.
- `DiskTemp`: the whole probe of one drive.
- `Fan`: the `FanControl` class and its command and loop methods.

`HTS5416..J9AT00` and `HTS541040G9AT00` are both 15 characters long and differ at position 6 (`6` against `0`); `ModelPattern.MatchExamples` proves the mismatch.
`FanControl.cpp` has no fan-level decision, suspend handling or signal dispatch: its loop (FanControl.cpp:75-84) only probes the disks and sleeps, so none of these is modelled.

## Model

| member | source | states |
|---|---|---|
| `ModelPattern.CheckModelPattern` | FanControl.cpp:145-160 | returns true exactly when model and pattern have the same length and agree at every non-`.` position; different lengths always give false |
| `ModelPattern.MatchesAnyPattern` | FanControl.cpp:130-137 | the search that stops at the first matching pattern returns true exactly when some pattern of the list matches |
| `ModelPattern.MatchesItself` | FanControl.cpp:151-159 | every model matches itself |
| `ModelPattern.AllWildcardsMatch` | FanControl.cpp:151-154 | a pattern made only of `.` matches every model of the same length |
| `ModelPattern.LiteralPatternIsEquality` | FanControl.cpp:151-159 | a pattern without `.` matches exactly the equal model |
| `ModelPattern.WildcardWeakens` | FanControl.cpp:151-154 | replacing a pattern character by `.` never loses a match |
| `ModelPattern.MatchExamples` | FanControl.cpp:145-160 | `HTS541040G9AT00` matches `HTS5410..G9AT00`; it does not match `HTE541040G9AT00` or `HTS5416..J9AT00`; a shorter model does not match |
| `ModelPattern.AllowListExamples` | FanControl.cpp:28 | `HTS541040G9AT00` is on the allow-list; `ST9100824A` is not |
| `ModelName.Without` | FanControl.cpp:123 | the result contains no removed character, is no longer than the input, and equals the input when the character is absent |
| `ModelName.WithoutConcat` | FanControl.cpp:123 | removing from a concatenation equals concatenating the removals, so order is kept |
| `ModelName.WithoutPrefixStep` | FanControl.cpp:123 | extending a prefix by one character extends its removal by that character, unless it is the removed one |
| `ModelName.WithoutKeepsOthers` | FanControl.cpp:123 | every other character occurs as often after the removal as before |
| `ModelName.AfterLast` | FanControl.cpp:125-128 | the result is a suffix of the input that contains no space, and it is either the whole input or is preceded by a space |
| `ModelName.AfterLastUnique` | FanControl.cpp:125-128 | those three facts determine the suffix uniquely |
| `ModelName.NormalisedModel` | FanControl.cpp:122-128 | the normalised model contains neither newline nor space |
| `ModelName.RemoveInPlace` | FanControl.cpp:123 | in-place remove/erase: the buffer prefix up to the returned end is the input with every newline removed |
| `ModelName.FindLastOf` | FanControl.cpp:125 | returns the position of the last space, with no space after it, or None when there is no space |
| `ModelName.NormaliseModel` | FanControl.cpp:122-128 | the in-place rewriting of the model text yields the normalised model: no newline, no space, the last word of the newline-free text |
| `ModelName.NormalisedPlain` | FanControl.cpp:123-128 | text with neither newline nor space is kept unchanged |
| `ModelName.NormalisedLastWord` | FanControl.cpp:123-128 | a prefix, a space, a word and a newline normalise to the word |
| `ModelName.NormalisedTrailingSpace` | FanControl.cpp:125-128 | text that ends in a space normalises to the empty string |
| `HitachiTemp.DecodeTemperature` | FanControl.cpp:171-178 | bytes 0x00, 0xFF and 0x01, and only those, give -128; any other byte gives t with b / 2 == t + 20, and t lies in [-19, 107] |
| `HitachiTemp.ReadHitachiTemp` | FanControl.cpp:164-183 | a failed open or ioctl gives -128; the result is a valid temperature exactly when a byte came back that is not 0x00, 0x01 or 0xFF |
| `HitachiTemp.DecodeOnto` | FanControl.cpp:178 | every temperature in [-19, 107] is the decoding of byte 2(t+20), and below 107 also of the odd byte after it |
| `HitachiTemp.DecodeMonotone` | FanControl.cpp:178 | of two accepted bytes, the larger never decodes to a lower temperature |
| `HitachiTemp.DecodeExamples` | FanControl.cpp:171-178 | 0x5A gives 25, 0x02 gives -19, 0xFE gives 107, 0x01 gives -128 |
| `DiskTemp.DiskTemperature` | FanControl.cpp:113-143 | the probe of one drive yields -128 or a temperature in [-19, 107] |
| `DiskTemp.DiskTemperatureCases` | FanControl.cpp:117-142 | -128 when the model file cannot be opened or the normalised model matches no allow-list pattern; for an allow-listed model it is the decoded response |
| `DiskTemp.ReadDiskTemp` | FanControl.cpp:113-143 | the probe returns -128 when the model file cannot be opened; otherwise it returns the drive read when some allow-list pattern matches the normalised model, and -128 when none does |
| `DiskTemp.ResponseIgnoredUnlessHitachi` | FanControl.cpp:130-142 | for a model that is not on the allow-list, the vendor response has no influence on the result, which is -128 |
| `DiskTemp.ProbeLastWord` | FanControl.cpp:113-143 | a model file `prefix word\n` with an allow-listed word reads as the decoded response byte |
| `DiskTemp.TrailingSpaceNeverRead` | FanControl.cpp:125-142 | a model text ending in a space gives -128 whatever the drive responds |
| `Decimal.NatToString` | FanControl.cpp:67-69 | the rendering of a number is a non-empty digit string without leading zero: it starts with `0` only when it is exactly `0` |
| `Decimal.ParseNatToString` | FanControl.cpp:67-69 | reading the rendered number back gives the number |
| `Decimal.NatToStringInjective` | FanControl.cpp:67-69 | different numbers are rendered differently |
| `Fan.WatchdogCommand` | FanControl.cpp:67-69 | the command starts with `watchdog ` and is followed by the decimal digits of the seconds, without leading zero: a `0` after the space means the command is exactly `watchdog 0` |
| `Fan.WatchdogCommands` | FanControl.cpp:67-70 | the start command is `watchdog 9`; for zero seconds the command is `watchdog 0`, the text that cleanup sends |
| `Fan.ProbeCadence` | FanControl.cpp:24-27 | helper unfolding of the constants: the probe count of 8 iterations equals the probe period divided by the interval (24 / 3), and the watchdog delay is 9 seconds |
| `Fan.ProbeResult` | FanControl.cpp:77-80 | the `hda` result when it is not -128, otherwise the `sda` result; -128 only when both disks give -128 |
| `Fan.ProbeLog` | FanControl.cpp:74-82 | the devices probed in the first n iterations; after at least one iteration it is non-empty and starts with `hda`, because iteration 0 probes |
| `Fan.ProbeLogStep` | FanControl.cpp:76-82 | helper unfolding of `Fan.ProbeLog` at one more iteration, used by `Fan.FanControl.Poll`: one more iteration adds the devices of one probe round exactly when its counter is a multiple of 8, and nothing otherwise |
| `Fan.ProbedDevices` | FanControl.cpp:77-80 | `hda` is always read; `sda` is read second, and only when `hda` gave -128 |
| `Fan.LastProbeCycle` | FanControl.cpp:74-84 | after n iterations the last probe happened at an iteration below n whose counter is a multiple of 8 |
| `Fan.LastProbeIsLast` | FanControl.cpp:76-82 | no iteration after that one and before n probes the disk |
| `Fan.LastProbeStep` | FanControl.cpp:76-82 | helper unfolding of `Fan.LastProbeCycle` at one more iteration, used by `Fan.FanControl.Poll`: one more iteration moves the last probe to that iteration if it probed, and leaves it otherwise |
| `Fan.FanControl.constructor` | FanControl.cpp:32-38 | all flags are off, the cached temperature is -128, and both logs are empty |
| `Fan.FanControl.SetDryRun` | FanControl.cpp:50-53 | sets the dry-run flag |
| `Fan.FanControl.SetQuiet` | FanControl.cpp:55-58 | sets the quiet flag |
| `Fan.FanControl.SetSyslog` | FanControl.cpp:60-63 | sets the syslog flag |
| `Fan.FanControl.SendIbmCommand` | FanControl.cpp:93-111 | succeeds always in a dry run, otherwise exactly when the device is writable; a successful send appends the command to the log, a failed one leaves the log unchanged |
| `Fan.FanControl.ControlCycle` | FanControl.cpp:75-84 | the counter grows by exactly 1; on an iteration whose counter is a multiple of 8 the cache becomes the probe result and the probe log grows by the probed devices; on any other iteration the cache and the probe log are unchanged; the cache always holds -128 or a temperature in [-19, 107] |
| `Fan.FanControl.Poll` | FanControl.cpp:74-84 | from counter 0, after n iterations the counter is n, the cache holds the result of the last probe iteration (n > 0) or is unchanged (n = 0), and the probe log grows by exactly the devices probed on the probing iterations |
| `Fan.FanControl.Control` | FanControl.cpp:65-85 | first sends `watchdog 9` to `fan`, then starts the counter at 0; after n iterations the counter is n, the cache holds the result of the last probe iteration (n > 0) or is unchanged (n = 0), the probe log grows by exactly the devices probed on the probing iterations, and no other command is sent |
| `Fan.FanControl.Cleanup` | FanControl.cpp:87-91 | sends `enable` and then `watchdog 0` to `fan`, each logged when delivered; in a dry run the log gains exactly those two commands, in that order |

## Left out

- `fancontrol.cpp` as a whole is not part of this model: command-line parsing, fork and daemonisation, the pid file, `kill`, `setpriority` and signal registration are operating-system plumbing.
- `Logger.cpp` and `Logger.h` are not part of this model: they spawn `/usr/bin/logger` or print. The call that logs "Starting dynamic fan control" is omitted.
- `FanControl::instance()`, the process-wide singleton, is not modelled. The model uses one explicitly constructed object, and the empty destructor is omitted.
- `sleep(INTERVAL)` is omitted: time is not modelled, only the iteration count.
- `Fan.FanControl.Control` runs only the first `iterations` iterations of a loop that never ends in the source; its loop is the separate method `Fan.FanControl.Poll`. The `cycle` counter is local in the source. Here it is a field, so that one iteration can be its own method, and it is unbounded: the source's `int` would overflow after about 200 years of 3-second iterations.
- The device paths (`/dev/<dev>`, `/sys/block/<dev>/device/model`, `/proc/acpi/ibm/<dev>`) are omitted. Inputs are keyed by the device name instead.
- The "could not open" and "could not write" messages to standard error and the dry-run echo to standard output are omitted. The command log stands in for the written or echoed command.
- `Fan.FanControl.SendIbmCommand`: one flag, "device writable", stands for both real-mode failures the source checks, "open failed" and "stream failed after `<<`". The stream buffers the short command, so the actual write happens when the stream is closed, and an error there is never checked: the model logs such a command as delivered, as the source reports it.
- `HitachiTemp.ReadHitachiTemp`: a failed `open` and a failed `ioctl` are one input, `None`. The request bytes `{0xf0, 0x00, 0x01, 0x00}` and the ioctl number `0x031f` are not modelled. Only the returned byte `data[2]` is an input.
- The `quiet` and `syslog` flags are only stored. Nothing in `FanControl.cpp` reads them.
