/**
 * The command layer of the interactive front end: the argument-count guards
 * of the command handlers, the guards of mktable and map, the table of
 * commands and the way a tokenized line is dispatched through it, and the
 * naming of PCIe generations.
 *
 * An argument vector is the token sequence of one line; in the program it
 * is a NULL-terminated array whose element 0 is the command, and Arg reads
 * it the way the handlers do, with None for NULL.
 */
module Commands {
  import opened Wrappers
  import opened Tokenizer

  /*
   * Argument vectors
   */

  /** args[i] of the NULL-terminated vector holding args: None past the last token. */
  function Arg(args: seq<string>, i: nat): (a: Option<string>)
    ensures a.Some? <==> i < |args|
    ensures a.Some? ==> a.value == args[i]
  {
    if i < |args| then Some(args[i]) else None
  }

  /** ZERO_ARG_CHECK: the handler goes on only when no argument follows the command. */
  function ZeroArgCheck(args: seq<string>): (pass: bool)
    requires |args| >= 1
    ensures pass <==> |args| == 1
  {
    Arg(args, 1).None?
  }

  /**
   * TWO_ARG_CHECK: the handler goes on only when exactly two arguments
   * follow the command. The C test short-circuits, so args[2] is read only
   * when args[1] is there, and args[3] only when args[2] is.
   */
  function TwoArgCheck(args: seq<string>): (pass: bool)
    requires |args| >= 1
    ensures pass <==> |args| == 3
  {
    Arg(args, 1).Some? && Arg(args, 2).Some? && Arg(args, 3).None?
  }

  /*
   * Handlers with guards
   */

  /** What map asks prepare_mount for: the device, the mount point, and a fixed type and options. */
  datatype MountRequest = MountRequest(device: string, mountpoint: string, fstype: string, options: string)

  /** How a handler ends. Usage is the usage line printed by a failed argument check. */
  datatype CommandResult =
    | Listed
    | ListFailed
    | Usage
    | NoSuchDevice
    | NotAbsolute
    | MountFailed(request: MountRequest)
    | Mounted(request: MountRequest)
    | Unimplemented

  /** The value the handler returns: 0 for success, -1 for every failure. */
  function HandlerCode(r: CommandResult): (rc: int)
    ensures rc == 0 || rc == -1
    ensures rc == 0 <==> r.Listed? || r.Mounted? || r.Unimplemented?
  {
    match r
    case Listed => 0
    case Mounted(_) => 0
    case Unimplemented => 0
    case _ => -1
  }

  /** help: lists the commands; its printf results are not looked at. */
  function Help(args: seq<string>): (r: CommandResult)
    requires |args| >= 1
    ensures r == Listed <==> |args| == 1
    ensures r == Usage <==> |args| > 1
  {
    if !ZeroArgCheck(args) then Usage else Listed
  }

  /**
   * mktable: with no argument it lists the supported table types (printOk
   * says whether that printing succeeded); with exactly two it does nothing
   * yet and succeeds; otherwise it prints its usage.
   */
  function Mktable(args: seq<string>, printOk: bool): (r: CommandResult)
    requires |args| >= 1
    ensures r.Listed? || r.ListFailed? || r.Usage? || r.Unimplemented?
    ensures |args| == 1 ==> r == (if printOk then Listed else ListFailed)
    ensures r == Usage <==> |args| == 2 || |args| > 3
    ensures r == Unimplemented <==> |args| == 3
  {
    if Arg(args, 1).None? then
      if printOk then Listed else ListFailed
    else if !TwoArgCheck(args) then Usage
    else Unimplemented
  }

  /**
   * What map depends on outside this model: whether printing the target
   * map succeeds, the names lookup_device finds, and whether prepare_mount
   * succeeds.
   */
  datatype MapEnv = MapEnv(printOk: bool, devices: set<string>, mountOk: bool)

  /**
   * map: with no argument it prints the target map. Otherwise it needs
   * exactly a device and a mount point; the device must be known, and the
   * mount point must start with '/' (an empty one starts with its NUL).
   * The mount is then prepared with type "ext4" and options "noatime".
   */
  function Map(args: seq<string>, env: MapEnv): (r: CommandResult)
    requires |args| >= 1
    ensures r == Usage <==> |args| == 2 || |args| > 3
    ensures r == NoSuchDevice <==> |args| == 3 && args[1] !in env.devices
    ensures r == NotAbsolute <==> |args| == 3 && args[1] in env.devices && !StartsWithSlash(args[2])
    ensures r.Mounted? || r.MountFailed? ==>
      |args| == 3 && args[1] in env.devices && StartsWithSlash(args[2])
      && r.request == MountRequest(args[1], args[2], "ext4", "noatime")
      && (r.Mounted? <==> env.mountOk)
  {
    if Arg(args, 1).None? then
      if env.printOk then Listed else ListFailed
    else if !TwoArgCheck(args) then Usage
    else if args[1] !in env.devices then NoSuchDevice
    else if FirstChar(args[2]) != '/' then NotAbsolute
    else
      var request := MountRequest(args[1], args[2], "ext4", "noatime");
      if env.mountOk then Mounted(request) else MountFailed(request)
  }

  /** s[0] of a C string: its first character, or the terminating NUL when it is empty. */
  function FirstChar(s: string): (c: char)
    ensures s == [] ==> c == '\0'
    ensures s != [] ==> c == s[0]
  {
    if s == [] then '\0' else s[0]
  }

  predicate StartsWithSlash(s: string) {
    |s| > 0 && s[0] == '/'
  }

  /*
   * The command table and dispatch
   */

  /** ASCII tolower, the C locale's. */
  function Lower(c: char): (l: char)
    ensures 'A' <= c <= 'Z' ==> l as int == c as int + 32
    ensures !('A' <= c <= 'Z') ==> l == c
    ensures !('A' <= l <= 'Z')
  {
    if 'A' <= c <= 'Z' then (c as int + 32) as char else c
  }

  /** strcasecmp(a, b) == 0 on NUL-free strings: equal once both are lowered. */
  predicate SameIgnoringCase(a: string, b: string) {
    |a| == |b| && forall i :: 0 <= i < |a| ==> Lower(a[i]) == Lower(b[i])
  }

  datatype Fxn = Fxn(cmd: string, arghelp: string)

  /** The fxns table, in order, without its NULL sentinel. */
  const Fxns: seq<Fxn> := [
    Fxn("controllers", ""),
    Fxn("blockdevs", ""),
    Fxn("partitions", ""),
    Fxn("mdadm", "[ create name devcount level devices ]\n\t\tno argument lists mdadm devices"),
    Fxn("mounts", ""),
    Fxn("zpool", ""),
    Fxn("mktable", "[ blockdev tabletype ]\n\t\tno arguments lists supported types"),
    Fxn("map", "[ mountdev mountpoint type options\n\t\t  | mountdev \"swap\" ]\n\t\tno arguments lists current target map"),
    Fxn("help", "")
  ]

  /**
   * The first entry at or after i whose name matches name ignoring case;
   * None when the scan reaches the sentinel.
   */
  function LookupFrom(name: string, i: nat): (r: Option<nat>)
    requires i <= |Fxns|
    ensures r.Some? ==> i <= r.value < |Fxns| && SameIgnoringCase(Fxns[r.value].cmd, name)
    ensures r.Some? ==> forall j :: i <= j < r.value ==> !SameIgnoringCase(Fxns[j].cmd, name)
    ensures r.None? <==> forall j :: i <= j < |Fxns| ==> !SameIgnoringCase(Fxns[j].cmd, name)
    decreases |Fxns| - i
  {
    if i == |Fxns| then None
    else if SameIgnoringCase(Fxns[i].cmd, name) then Some(i)
    else LookupFrom(name, i + 1)
  }

  function Lookup(name: string): Option<nat> {
    LookupFrom(name, 0)
  }

  /** What happens to one line once tokenized. */
  datatype Action = Skip | Quit | Run(index: nat) | Unknown(name: string)

  /**
   * The decision for a token sequence: nothing for an empty line, leaving
   * on "quit" in any case, else the first table entry named by token 0, else
   * an unknown command.
   */
  function Decide(tokes: seq<string>): Action {
    if tokes == [] then Skip
    else if SameIgnoringCase(tokes[0], "quit") then Quit
    else match Lookup(tokes[0])
      case Some(i) => Run(i)
      case None => Unknown(tokes[0])
  }

  /** The dispatch of tty_ui: the quit test, then a scan of the table up to the sentinel. */
  method Dispatch(tokes: seq<string>) returns (a: Action)
    ensures a == Decide(tokes)
  {
    if tokes == [] {
      return Skip;
    }
    if SameIgnoringCase(tokes[0], "quit") {
      return Quit;
    }
    var i := 0;
    while i < |Fxns|
      invariant i <= |Fxns|
      invariant LookupFrom(tokes[0], i) == Lookup(tokes[0])
      decreases |Fxns| - i
    {
      if SameIgnoringCase(Fxns[i].cmd, tokes[0]) {
        break;
      }
      i := i + 1;
    }
    if i < |Fxns| {
      a := Run(i);
    } else {
      a := Unknown(tokes[0]);
    }
  }

  /** One turn of tty_ui on a line read: tokenize it, then dispatch its tokens. */
  method HandleLine(line: string) returns (a: Action)
    ensures a == Decide(Tokens(line))
  {
    var t, tokes := Tokenize(line);
    if t == 0 {
      a := Skip;
    } else {
      a := Dispatch(tokes.value);
    }
  }

  /*
   * Properties of dispatch
   */

  /** Comparing ignoring case is comparing the lowered strings. */
  function LowerString(s: string): (r: string)
    ensures |r| == |s| && forall i :: 0 <= i < |s| ==> r[i] == Lower(s[i])
  {
    if s == [] then [] else [Lower(s[0])] + LowerString(s[1..])
  }

  lemma SameIffLowered(a: string, b: string)
    ensures SameIgnoringCase(a, b) <==> LowerString(a) == LowerString(b)
  {
    if LowerString(a) == LowerString(b) {
      assert |a| == |b|;
      forall i | 0 <= i < |a|
        ensures Lower(a[i]) == Lower(b[i])
      {
        assert LowerString(a)[i] == LowerString(b)[i];
      }
    }
  }

  lemma SameTransitive(a: string, b: string, c: string)
    requires SameIgnoringCase(a, b) && SameIgnoringCase(b, c)
    ensures SameIgnoringCase(a, c)
  {
  }

  /** No two commands of the table have the same name, ignoring case. */
  lemma NamesDistinct(i: nat, j: nat)
    requires i < |Fxns| && j < |Fxns| && i != j
    ensures !SameIgnoringCase(Fxns[i].cmd, Fxns[j].cmd)
  {
    if |Fxns[i].cmd| == |Fxns[j].cmd| {
      assert {i, j} == {3, 5};
      assert Lower(Fxns[3].cmd[0]) != Lower(Fxns[5].cmd[0]);
    }
  }

  /**
   * As the names are distinct, the first match is the only one: a token
   * runs entry i exactly when i's name is the token, ignoring case.
   */
  lemma LookupExact(name: string, i: nat)
    ensures Lookup(name) == Some(i) <==> i < |Fxns| && SameIgnoringCase(Fxns[i].cmd, name)
  {
    var r := Lookup(name);
    if i < |Fxns| && SameIgnoringCase(Fxns[i].cmd, name) && r != Some(i) {
      assert r.Some?;
      SameTransitive(Fxns[r.value].cmd, name, Fxns[i].cmd);
      NamesDistinct(r.value, i);
    }
  }

  /** Every spelling of "quit" leaves; none of them names a table entry. */
  lemma QuitIsNoCommand(name: string)
    requires SameIgnoringCase(name, "quit")
    ensures Lookup(name) == None
    ensures forall rest :: Decide([name] + rest) == Quit
  {
    forall j | 0 <= j < |Fxns|
      ensures !SameIgnoringCase(Fxns[j].cmd, name)
    {
      if |Fxns[j].cmd| == 4 {
        assert j == 8;
        assert Lower(name[0]) == 'q';
      }
    }
  }

  /** Dispatch looks at token 0 only, and at its case not at all. */
  lemma DecideIgnoresCaseAndArguments(t: seq<string>, u: seq<string>)
    requires t != [] && u != [] && SameIgnoringCase(t[0], u[0])
    ensures Decide(t).Skip? == Decide(u).Skip?
    ensures Decide(t).Quit? <==> Decide(u).Quit?
    ensures Decide(t).Run? <==> Decide(u).Run?
    ensures Decide(t).Run? ==> Decide(t).index == Decide(u).index
  {
    var a, b := t[0], u[0];
    if SameIgnoringCase(a, "quit") {
      SameTransitive(b, a, "quit");
    } else if SameIgnoringCase(b, "quit") {
      SameTransitive(a, b, "quit");
    }
    match Lookup(a)
    case Some(i) =>
      LookupExact(a, i);
      SameTransitive(Fxns[i].cmd, a, b);
      LookupExact(b, i);
    case None =>
      if Lookup(b).Some? {
        var i := Lookup(b).value;
        SameTransitive(Fxns[i].cmd, b, a);
        LookupExact(a, i);
      }
  }

  /** A line is skipped exactly when it is white space up to where the tokenizer's scan stops. */
  lemma LineSkippedIff(line: string)
    ensures Decide(Tokens(line)) == Skip <==> AllSpace(line[..ScanEnd(line, 0)])
  {
    NoTokensIff(line);
  }

  /*
   * Handler results
   */

  /** map succeeds exactly when it lists, or mounts a known device on an absolute path. */
  lemma MapSucceedsIff(args: seq<string>, env: MapEnv)
    requires |args| >= 1
    ensures HandlerCode(Map(args, env)) == 0 <==>
      (|args| == 1 && env.printOk)
      || (|args| == 3 && args[1] in env.devices && StartsWithSlash(args[2]) && env.mountOk)
  {
  }

  /** mktable succeeds when it lists successfully, or on exactly two arguments. */
  lemma MktableSucceedsIff(args: seq<string>, printOk: bool)
    requires |args| >= 1
    ensures HandlerCode(Mktable(args, printOk)) == 0 <==> (|args| == 1 && printOk) || |args| == 3
  {
  }

  /*
   * PCIe generations
   */

  /** pcie_gen: the names of generations 1 to 3, "unknown" for every other number. */
  function PcieGen(gen: nat): (s: string)
    ensures s == "unknown" <==> gen < 1 || gen > 3
    ensures 1 <= gen <= 3 ==> |s| == 3 && s[0] as int == '0' as int + gen && s[1..] == ".0"
  {
    match gen
    case 1 => "1.0"
    case 2 => "2.0"
    case 3 => "3.0"
    case _ => "unknown"
  }

  /** Different known generations have different names. */
  lemma PcieGenInjective(g: nat, h: nat)
    requires 1 <= g <= 3 && 1 <= h <= 3 && g != h
    ensures PcieGen(g) != PcieGen(h)
  {
    assert PcieGen(g)[0] != PcieGen(h)[0];
  }
}
