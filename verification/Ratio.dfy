/** The download gate of contrib/mod_ratio.c: what may be retrieved is bounded by what was
    stored, at a configured rate, plus a credit.
*/
module Ratio {

  /** stats.frate, fcred, brate, bcred. */
  datatype Rule = Rule(frate: int, fcred: int, brate: int, bcred: int)

  const TWO_TO_THE_31: int := 0x8000_0000
  const TWO_TO_THE_32: int := 0x1_0000_0000

  /** Conversion of st_size to the int variable fsize. */
  function ToInt(size: nat): (n: int)
    ensures -TWO_TO_THE_31 <= n < TWO_TO_THE_31
    ensures size < TWO_TO_THE_31 ==> n == size
  {
    var low := size % TWO_TO_THE_32;
    if low < TWO_TO_THE_31 then low else low - TWO_TO_THE_32
  }

  /** C division by a positive number: towards zero. */
  function Quotient(a: int, b: int): int
    requires b > 0
  {
    if a >= 0 then a / b else -((-a) / b)
  }

  /** What a rate makes of an uploaded amount: a multiple, or a fraction for negative rates. */
  function Earned(rate: int, stored: nat): int {
    if rate >= 0 then rate * stored else stored / -rate
  }

  lemma EarnedMonotone(rate: int, stored: nat, more: nat)
    ensures Earned(rate, stored) <= Earned(rate, stored + more)
  {
    if rate >= 0 {
      assert rate * (stored + more) == rate * stored + rate * more;
    } else {
      DivMonotone(stored, stored + more, -rate);
    }
  }

  lemma DivMonotone(a: nat, b: nat, d: int)
    requires a <= b && d > 0
    ensures a / d <= b / d
  {
    if a / d > b / d {
      MulMonotone(d, b / d + 1, a / d);
    }
  }

  lemma MulMonotone(d: int, x: int, y: int)
    requires d > 0 && x <= y
    ensures d * x <= d * y
  {
  }

  /** Files and kilobytes stored and retrieved so far. */
  datatype Counts = Counts(fstor: nat, fretr: nat, bstor: nat, bretr: nat)

  function FilesLeft(r: Rule, c: Counts): int {
    Earned(r.frate, c.fstor) + r.fcred - c.fretr
  }

  function KilobytesLeft(r: Rule, c: Counts): int {
    Earned(r.brate, c.bstor) + r.bcred - c.bretr
  }

  /** The size pre_cmd_retr checks, in kilobytes; statSize is -1 when stat fails. */
  function Checked(statSize: int): int {
    Quotient(if statSize >= 0 then ToInt(statSize) else 0, 1024)
  }

  /** One more file, and the size as the int variable holds it, stay within the rule. */
  predicate Admits(r: Rule, c: Counts, statSize: int) {
    && (r.frate != 0 ==> FilesLeft(r, c) >= 1)
    && (r.brate != 0 ==> KilobytesLeft(r, c) >= Checked(statSize))
  }

  class Stats {
    var fstor: nat
    var fretr: nat
    /** Kilobytes. */
    var bstor: nat
    var bretr: nat
    var files: int
    var bytes: int

    function View(): Counts
      reads this
    {
      Counts(fstor, fretr, bstor, bretr)
    }

    /** The remaining allowances are those of the rule and the counts. */
    ghost predicate UpToDate(r: Rule)
      reads this
    {
      files == FilesLeft(r, View()) && bytes == KilobytesLeft(r, View())
    }

    constructor ()
      ensures View() == Counts(0, 0, 0, 0)
    {
      fstor, fretr, bstor, bretr, files, bytes := 0, 0, 0, 0, 0, 0;
    }

    /** update_ratios: recomputes the remaining allowances. */
    method UpdateRatios(r: Rule)
      modifies this`files, this`bytes
      ensures UpToDate(r)
      ensures files == (if r.frate >= 0 then r.frate * fstor else fstor / -r.frate) + r.fcred - fretr
      ensures bytes == (if r.brate >= 0 then r.brate * bstor else bstor / -r.brate) + r.bcred - bretr
    {
      if r.frate >= 0 {
        files := r.frate * fstor + r.fcred - fretr;
      } else {
        files := fstor / (r.frate * -1) + r.fcred - fretr;
      }
      if r.brate >= 0 {
        bytes := r.brate * bstor + r.bcred - bretr;
      } else {
        bytes := bstor / (r.brate * -1) + r.bcred - bretr;
      }
    }

    /** pre_cmd_retr. */
    method PreRetr(r: Rule, statSize: int) returns (admitted: bool)
      requires statSize >= -1
      modifies this`files, this`bytes
      ensures UpToDate(r)
      ensures admitted <==> Admits(r, View(), statSize)
      ensures statSize < 0x8000_0000 ==>
        (admitted <==>
          && (r.frate > 0 ==> fretr + 1 <= r.frate * fstor + r.fcred)
          && (r.frate < 0 ==> fretr + 1 <= fstor / -r.frate + r.fcred)
          && (r.brate > 0 ==> bretr + (if statSize < 0 then 0 else statSize / 1024) <= r.brate * bstor + r.bcred)
          && (r.brate < 0 ==> bretr + (if statSize < 0 then 0 else statSize / 1024) <= bstor / -r.brate + r.bcred))
    {
      UpdateRatios(r);
      if r.frate == 0 && r.brate == 0 {
        return true;
      }
      if r.frate != 0 && files < 1 {
        return false;
      }
      if r.brate != 0 {
        var fsize := 0;
        if statSize >= 0 {
          fsize := ToInt(statSize);
        }
        if bytes - Quotient(fsize, 1024) < 0 {
          return false;
        }
      }
      return true;
    }

    /** ratio_post_retr. */
    method PostRetr(r: Rule, total: nat)
      modifies this
      ensures View() == old(View()).(fretr := old(fretr) + 1, bretr := old(bretr) + total / 1024)
      ensures fretr == old(fretr) + 1 && bretr == old(bretr) + total / 1024
      ensures fstor == old(fstor) && bstor == old(bstor)
      ensures UpToDate(r)
    {
      fretr := fretr + 1;
      bretr := bretr + total / 1024;
      UpdateRatios(r);
    }

    /** ratio_post_stor. */
    method PostStor(r: Rule, total: nat)
      modifies this
      ensures View() == old(View()).(fstor := old(fstor) + 1, bstor := old(bstor) + total / 1024)
      ensures fstor == old(fstor) + 1 && bstor == old(bstor) + total / 1024
      ensures fretr == old(fretr) && bretr == old(bretr)
      ensures UpToDate(r)
    {
      fstor := fstor + 1;
      bstor := bstor + total / 1024;
      UpdateRatios(r);
    }
  }

  // ----- Whole runs -----

  /** A command: an upload, or a download of a file whose stat size and transferred size are
      given. */
  datatype Command = Stor(total: nat) | Retr(statSize: int, total: nat)

  predicate CommandOk(c: Command) {
    c.Retr? ==> c.statSize >= -1
  }

  predicate Passes(r: Rule, c: Counts, cmd: Command) {
    cmd.Retr? ==> Admits(r, c, cmd.statSize)
  }

  /** The counts after a command; a refused download changes none. */
  function Step(r: Rule, c: Counts, cmd: Command): Counts {
    if !Passes(r, c, cmd) then c else
      match cmd
      case Stor(total) => c.(fstor := c.fstor + 1, bstor := c.bstor + total / 1024)
      case Retr(_, total) => c.(fretr := c.fretr + 1, bretr := c.bretr + total / 1024)
  }

  function After(r: Rule, commands: seq<Command>): Counts
    decreases |commands|
  {
    if commands == [] then Counts(0, 0, 0, 0)
    else Step(r, After(r, commands[..|commands| - 1]), commands[|commands| - 1])
  }

  method Perform(stats: Stats, r: Rule, cmd: Command) returns (passed: bool)
    requires CommandOk(cmd)
    modifies stats
    ensures stats.View() == Step(r, old(stats.View()), cmd)
    ensures passed == Passes(r, old(stats.View()), cmd)
  {
    hide Admits, Earned;
    match cmd {
      case Stor(total) =>
        stats.PostStor(r, total);
        return true;
      case Retr(statSize, total) =>
        passed := stats.PreRetr(r, statSize);
        if passed {
          stats.PostRetr(r, total);
        }
    }
  }

  /** The session lets through exactly the commands the rule admits at their time, and counts
      exactly those. */
  method Run(r: Rule, commands: seq<Command>) returns (stats: Stats, passed: seq<bool>)
    requires forall i :: 0 <= i < |commands| ==> CommandOk(commands[i])
    ensures stats.View() == After(r, commands)
    ensures |passed| == |commands|
    ensures forall i :: 0 <= i < |commands| ==> passed[i] == Passes(r, After(r, commands[..i]), commands[i])
  {
    hide Step, Passes;
    stats := new Stats();
    passed := [];
    for k := 0 to |commands|
      invariant fresh(stats) && stats.View() == After(r, commands[..k])
      invariant |passed| == k
      invariant forall i :: 0 <= i < k ==> passed[i] == Passes(r, After(r, commands[..i]), commands[i])
    {
      assert commands[..k + 1][..k] == commands[..k];
      var ok := Perform(stats, r, commands[k]);
      passed := passed + [ok];
    }
    assert commands[..|commands|] == commands;
  }

  /** Exactly which downloads of a run are refused, for sizes an int can hold: those that would
      exceed the rule in files or in kilobytes. */
  lemma {:induction false} RefusedExactly(r: Rule, commands: seq<Command>, i: nat)
    requires i < |commands| && commands[i].Retr? && -1 <= commands[i].statSize < 0x8000_0000
    ensures var c := After(r, commands[..i]);
            var kilobytes := if commands[i].statSize < 0 then 0 else commands[i].statSize / 1024;
            !Passes(r, c, commands[i]) <==>
              || (r.frate > 0 && c.fretr + 1 > r.frate * c.fstor + r.fcred)
              || (r.frate < 0 && c.fretr + 1 > c.fstor / -r.frate + r.fcred)
              || (r.brate > 0 && c.bretr + kilobytes > r.brate * c.bstor + r.bcred)
              || (r.brate < 0 && c.bretr + kilobytes > c.bstor / -r.brate + r.bcred)
  {
    hide After;
  }

  /** How many commands of a run that pass are uploads, or downloads, and their kilobytes. */
  function Passed(r: Rule, commands: seq<Command>, downloads: bool): (int, int)
    decreases |commands|
  {
    if commands == [] then (0, 0) else
      var k := |commands| - 1;
      var (files, kb) := Passed(r, commands[..k], downloads);
      if commands[k].Retr? == downloads && Passes(r, After(r, commands[..k]), commands[k])
      then (files + 1, kb + commands[k].total / 1024) else (files, kb)
  }

  /** The counts of a run are those of the commands that passed. */
  lemma {:induction false} CountsAreTotals(r: Rule, commands: seq<Command>)
    ensures var c := After(r, commands);
            (c.fstor, c.bstor) == Passed(r, commands, false) && (c.fretr, c.bretr) == Passed(r, commands, true)
    decreases |commands|
  {
    hide Passes;
    if commands != [] {
      CountsAreTotals(r, commands[..|commands| - 1]);
    }
  }

  /** In every run, whatever was retrieved, in files, was earned or credited. */
  lemma {:induction false} FilesStayWithinRule(r: Rule, commands: seq<Command>)
    ensures var c := After(r, commands); r.frate != 0 && c.fretr > 0 ==> FilesLeft(r, c) >= 0
    decreases |commands|
  {
    if commands != [] {
      FilesStayWithinRule(r, commands[..|commands| - 1]);
      EarnedMonotone(r.frate, After(r, commands[..|commands| - 1]).fstor, 1);
    }
  }

  /** The most kilobytes by which one admitted download exceeded the size it was checked at. */
  function WorstExcess(r: Rule, commands: seq<Command>): nat
    decreases |commands|
  {
    if commands == [] then 0 else
      var before, cmd := commands[..|commands| - 1], commands[|commands| - 1];
      var worst := WorstExcess(r, before);
      if cmd.Retr? && Passes(r, After(r, before), cmd) && cmd.total / 1024 - Checked(cmd.statSize) > worst
      then cmd.total / 1024 - Checked(cmd.statSize) else worst
  }

  /** In every run, what was retrieved in kilobytes never exceeds what was earned and credited
      by more than one download exceeded its checked size. */
  lemma {:induction false} BytesStayWithinRule(r: Rule, commands: seq<Command>)
    ensures var c := After(r, commands);
            r.brate != 0 && c.bretr > 0 ==> KilobytesLeft(r, c) + WorstExcess(r, commands) >= 0
    decreases |commands|
  {
    hide Earned, Checked;
    if commands != [] {
      var k := |commands| - 1;
      BytesStayWithinRule(r, commands[..k]);
      if commands[k].Stor? {
        EarnedMonotone(r.brate, After(r, commands[..k]).bstor, commands[k].total / 1024);
      }
    }
  }

  /** No download was larger than the size it was checked at. */
  predicate Measured(commands: seq<Command>) {
    forall i :: 0 <= i < |commands| && commands[i].Retr? ==>
      commands[i].total / 1024 <= Checked(commands[i].statSize)
  }

  lemma {:induction false} MeasuredRunsStayWithinRule(r: Rule, commands: seq<Command>)
    requires Measured(commands)
    ensures WorstExcess(r, commands) == 0
    ensures var c := After(r, commands); r.brate != 0 && c.bretr > 0 ==> KilobytesLeft(r, c) >= 0
    decreases |commands|
  {
    BytesStayWithinRule(r, commands);
    if commands != [] {
      MeasuredRunsStayWithinRule(r, commands[..|commands| - 1]);
    }
  }

  lemma FirstDownload(r: Rule, statSize: int, total: nat)
    requires Admits(r, Counts(0, 0, 0, 0), statSize)
    ensures After(r, [Retr(statSize, total)]) == Counts(0, 1, 0, total / 1024)
  {
    hide Admits;
    assert [Retr(statSize, total)][..0] == [];
  }

  /** A first download of 2 GiB, with nothing stored and no credit, is let through. */
  lemma LargeFileBreaksRule(total: nat)
    requires total == TWO_TO_THE_31
    ensures var r := Rule(0, 0, 1, 0);
            var c := After(r, [Retr(total, total)]);
            c.bretr == total / 1024 > 0 && KilobytesLeft(r, c) < 0
  {
    hide ToInt, After;
    LargeFileChecksNegative();
    FirstDownload(Rule(0, 0, 1, 0), total, total);
  }

  lemma LargeFileChecksNegative()
    ensures Checked(TWO_TO_THE_31) == -0x20_0000
  {
    assert ToInt(TWO_TO_THE_31) == -TWO_TO_THE_31;
  }

  /** The byte gate of pre_cmd_retr, for an allowance and a size that stat reported. */
  predicate ByteGate(allowance: int, size: nat) {
    !(allowance - Quotient(ToInt(size), 1024) < 0)
  }

  /** Exactly when the byte gate can be trusted: it compares the true size with every
      allowance if and only if the file is smaller than 2 GiB. */
  lemma GateIsExact(size: nat)
    ensures (forall allowance: int :: ByteGate(allowance, size) <==> size / 1024 <= allowance)
       <==> size < TWO_TO_THE_31
  {
    if size >= TWO_TO_THE_31 {
      // an allowance one kilobyte short lets the file through
      var short: nat := size / 1024 - 1;
      assert ByteGate(short, size);
    }
  }
}
