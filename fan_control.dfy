/** The fan-control object: the commands it sends to the ThinkPad ACPI fan
    interface, and the polling loop that refreshes the cached disk temperature. */
module Fan {
  import opened Decimal
  import opened HitachiTemp
  import opened DiskTemp

  /** Seconds between two iterations of the polling loop. */
  const Interval: nat := 3
  /** Watchdog timeout armed at start: three polling intervals. */
  const WatchdogDelay: nat := 3 * Interval
  /** Seconds between two disk probes, and the same period counted in
      iterations (DiskPoolPeriod / Interval, see ProbeCadence). */
  const DiskPoolPeriod: nat := 24
  const DiskPoolIntervalCount: nat := 8

  /** The ACPI device every command goes to, and the two probed disks. */
  const FanDevice: string := "fan"
  const Hda: string := "hda"
  const Sda: string := "sda"

  /** One text command written to one device of the ACPI interface. */
  datatype Command = Command(device: string, text: string)

  /** "watchdog <seconds>", the seconds written in decimal. */
  function WatchdogCommand(seconds: nat): (s: string)
    ensures |s| > 9 && s[..9] == "watchdog "
    ensures AllDigits(s[9..]) && ParseNat(s[9..]) == seconds
    ensures s[9] == '0' ==> seconds == 0
    ensures s[9] == '0' ==> s == "watchdog 0"
  {
    var digits := NatToString(seconds);
    ParseNatToString(seconds);
    var s := "watchdog " + digits;
    assert s[9..] == digits;
    s
  }

  /** The command armed at start is "watchdog 9", and the one sent at cleanup
      is the watchdog command for zero seconds. */
  lemma WatchdogCommands()
    ensures WatchdogCommand(WatchdogDelay) == "watchdog 9"
    ensures WatchdogCommand(0) == "watchdog 0"
  {
    assert NatToString(9) == "9";
    assert NatToString(0) == "0";
  }

  /** The disk is probed once per DiskPoolPeriod seconds, that is on every
      eighth iteration; the watchdog is armed for 9 seconds. */
  lemma ProbeCadence()
    ensures DiskPoolIntervalCount == DiskPoolPeriod / Interval
    ensures WatchdogDelay == 9
  {
  }

  /** The result of one probe round: the first disk, and the second disk only
      when the first gave no temperature. */
  function ProbeResult(drives: string -> Drive): (t: int)
    ensures t == Unavailable || MinTemp <= t <= MaxTemp
    ensures DiskTemperature(drives(Hda)) != Unavailable ==> t == DiskTemperature(drives(Hda))
    ensures DiskTemperature(drives(Hda)) == Unavailable ==> t == DiskTemperature(drives(Sda))
    ensures t == Unavailable <==>
      DiskTemperature(drives(Hda)) == Unavailable && DiskTemperature(drives(Sda)) == Unavailable
  {
    var h := DiskTemperature(drives(Hda));
    if h != Unavailable then h else DiskTemperature(drives(Sda))
  }

  /** The devices one probe round reads, in order: the second disk is read
      exactly when the first gave no temperature. */
  function ProbedDevices(drives: string -> Drive): (devices: seq<string>)
    ensures |devices| >= 1 && devices[0] == Hda
    ensures |devices| == 2 <==> DiskTemperature(drives(Hda)) == Unavailable
    ensures |devices| == 2 ==> devices[1] == Sda
  {
    if DiskTemperature(drives(Hda)) != Unavailable then [Hda] else [Hda, Sda]
  }

  /** For n completed iterations (n > 0), the last iteration that probed the disk. */
  function LastProbeCycle(n: nat): (c: nat)
    requires n > 0
    ensures c < n && c % DiskPoolIntervalCount == 0
  {
    if (n - 1) % DiskPoolIntervalCount == 0 then n - 1 else LastProbeCycle(n - 1)
  }

  /** No iteration after the last probe iteration probes the disk. */
  lemma {:induction false} LastProbeIsLast(n: nat, k: nat)
    requires n > 0 && LastProbeCycle(n) < k < n
    ensures k % DiskPoolIntervalCount != 0
  {
    if k < n - 1 {
      LastProbeIsLast(n - 1, k);
    }
  }

  /** After one more iteration the last probe is that iteration if it probed,
      and unchanged otherwise. */
  lemma LastProbeStep(c: nat)
    ensures c % DiskPoolIntervalCount == 0 ==> LastProbeCycle(c + 1) == c
    ensures c > 0 && c % DiskPoolIntervalCount != 0 ==> LastProbeCycle(c + 1) == LastProbeCycle(c)
  {
  }

  /** The devices probed during the first n iterations, when drives(k) is the
      state of the disks at iteration k. */
  function ProbeLog(drives: nat -> (string -> Drive), n: nat): (log: seq<string>)
    ensures n > 0 ==> |log| > 0 && log[0] == Hda
  {
    if n == 0 then []
    else
      var round := if (n - 1) % DiskPoolIntervalCount == 0 then ProbedDevices(drives(n - 1)) else [];
      ProbeLog(drives, n - 1) + round
  }

  /** One more iteration adds one probe round to the log exactly when it probes. */
  lemma ProbeLogStep(drives: nat -> (string -> Drive), c: nat)
    ensures ProbeLog(drives, c + 1) ==
      ProbeLog(drives, c) + (if c % DiskPoolIntervalCount == 0 then ProbedDevices(drives(c)) else [])
  {
  }

  /** The probe result of the last probing iteration among the first n. */
  function LastProbeResult(drives: nat -> (string -> Drive), n: nat): int
    requires n > 0
  {
    ProbeResult(drives(LastProbeCycle(n)))
  }

  class FanControl {
    var dryRun: bool
    var quiet: bool
    var syslog: bool
    /** The cached disk temperature, Unavailable until a probe succeeds. */
    var hddTemp: int
    /** The iteration counter of the polling loop. */
    var cycle: nat
    /** The commands reported as delivered, in order. */
    var sent: seq<Command>
    /** The disks probed, in order. */
    var probed: seq<string>

    /** The cache holds Unavailable or a temperature a drive can report. */
    ghost predicate Valid()
      reads this
    {
      hddTemp == Unavailable || MinTemp <= hddTemp <= MaxTemp
    }

    constructor ()
      ensures Valid()
      ensures !dryRun && !quiet && !syslog
      ensures hddTemp == Unavailable && cycle == 0 && sent == [] && probed == []
    {
      dryRun := false;
      quiet := false;
      syslog := false;
      hddTemp := Unavailable;
      cycle := 0;
      sent := [];
      probed := [];
    }

    method SetDryRun(dryRun': bool)
      modifies this`dryRun
      ensures dryRun == dryRun'
    {
      dryRun := dryRun';
    }

    method SetQuiet(quiet': bool)
      modifies this`quiet
      ensures quiet == quiet'
    {
      quiet := quiet';
    }

    method SetSyslog(syslog': bool)
      modifies this`syslog
      ensures syslog == syslog'
    {
      syslog := syslog';
    }

    /** Sends one command. A dry run only echoes it and always succeeds; a real
        send succeeds when the device file can be opened and written, which
        deviceWritable stands for. */
    method SendIbmCommand(device: string, command: string, deviceWritable: bool) returns (ok: bool)
      modifies this`sent
      ensures ok == (dryRun || deviceWritable)
      ensures dryRun ==> ok
      ensures sent == old(sent) + (if ok then [Command(device, command)] else [])
    {
      if dryRun {
        sent := sent + [Command(device, command)];
        return true;
      }
      if !deviceWritable {
        return false;
      }
      sent := sent + [Command(device, command)];
      return true;
    }

    /** One iteration of the polling loop: on every DiskPoolIntervalCount-th
        iteration probe the first disk, and the second one only if the first
        gave no temperature; then count the iteration. */
    method ControlCycle(drives: string -> Drive)
      requires Valid()
      modifies this`hddTemp, this`cycle, this`probed
      ensures Valid()
      ensures cycle == old(cycle) + 1
      ensures old(cycle) % DiskPoolIntervalCount == 0 ==>
        hddTemp == ProbeResult(drives) && probed == old(probed) + ProbedDevices(drives)
      ensures old(cycle) % DiskPoolIntervalCount != 0 ==>
        hddTemp == old(hddTemp) && probed == old(probed)
    {
      if cycle % DiskPoolIntervalCount == 0 {
        var h := ReadDiskTemp(drives(Hda));
        if h != Unavailable {
          hddTemp := h;
          probed := probed + [Hda];
        } else {
          hddTemp := ReadDiskTemp(drives(Sda));
          probed := probed + [Hda, Sda];
        }
      }
      cycle := cycle + 1;
    }

    /** The control loop, run for its first `iterations` iterations: arm the
        watchdog, then poll, counting iterations from zero. */
    method Control(deviceWritable: bool, drives: nat -> (string -> Drive), iterations: nat)
      requires Valid()
      modifies this`sent, this`hddTemp, this`cycle, this`probed
      ensures Valid()
      ensures sent == old(sent) +
        (if dryRun || deviceWritable then [Command(FanDevice, WatchdogCommand(WatchdogDelay))] else [])
      ensures cycle == iterations
      ensures iterations == 0 ==> hddTemp == old(hddTemp)
      ensures iterations > 0 ==> hddTemp == LastProbeResult(drives, iterations)
      ensures probed == old(probed) + ProbeLog(drives, iterations)
    {
      var command := WatchdogCommand(WatchdogDelay);
      var _ := SendIbmCommand(FanDevice, command, deviceWritable);
      cycle := 0;
      Poll(drives, iterations);
    }

    /** The body of the endless loop, run from iteration zero for `iterations`
        iterations, drives(k) being the state of the disks at iteration k. */
    method Poll(drives: nat -> (string -> Drive), iterations: nat)
      requires Valid() && cycle == 0
      modifies this`hddTemp, this`cycle, this`probed
      ensures Valid()
      ensures cycle == iterations
      ensures iterations == 0 ==> hddTemp == old(hddTemp)
      ensures iterations > 0 ==> hddTemp == LastProbeResult(drives, iterations)
      ensures probed == old(probed) + ProbeLog(drives, iterations)
    {
      ghost var start := hddTemp;
      ghost var startProbed := probed;
      while cycle < iterations
        invariant Valid()
        invariant cycle <= iterations
        invariant cycle == 0 ==> hddTemp == start
        invariant cycle > 0 ==> hddTemp == LastProbeResult(drives, cycle)
        invariant probed == startProbed + ProbeLog(drives, cycle)
      {
        var c := cycle;
        ghost var log := probed;
        LastProbeStep(c);
        ProbeLogStep(drives, c);
        ControlCycle(drives(c));
        if c % DiskPoolIntervalCount == 0 {
          assert probed == log + ProbedDevices(drives(c));
        } else {
          assert probed == log;
        }
      }
    }

    /** Hand the fan back to the firmware: "enable", then "watchdog 0", both to
        the fan device; the flags say whether each real write succeeds. */
    method Cleanup(enableWritable: bool, watchdogWritable: bool)
      modifies this`sent
      ensures sent == old(sent)
        + (if dryRun || enableWritable then [Command(FanDevice, "enable")] else [])
        + (if dryRun || watchdogWritable then [Command(FanDevice, "watchdog 0")] else [])
      ensures dryRun ==> sent == old(sent) + [Command(FanDevice, "enable"), Command(FanDevice, "watchdog 0")]
    {
      var _ := SendIbmCommand(FanDevice, "enable", enableWritable);
      var _ := SendIbmCommand(FanDevice, "watchdog 0", watchdogWritable);
    }
  }
}
