/** The global parameters of the broker (src/daemon/conf.c:63-99).  Every callback for one of
    them first sets all but the working directory back to their defaults, so of those only the
    last one given counts. */
module ConfParams {
  import opened Prelude
  import opened Conf
  import IniText
  import Grant

  /** struct parameters; None is a null pointer. */
  datatype Data = Data(
    scheduler: Option<string>, workDir: Option<string>, containerRuntime: Option<string>,
    vmRuntime: Option<string>, workloadTimer: int, logMask: Option<string>)

  /** As calloc leaves it. */
  const Unset := Data(None, None, None, None, 0, None)

  function UpperChar(c: char): char {
    if 'a' <= c <= 'z' then c - 32 as char else c
  }

  function Upper(s: string): (t: string)
    ensures |t| == |s|
  {
    seq(|s|, i requires 0 <= i < |s| => UpperChar(s[i]))
  }

  /** atoi: 0 for a text that starts with no number. */
  function Atoi(s: string): int {
    match Grant.ScanInt(s)
    case None => 0
    case Some((v, _)) => v
  }

  function Defaults(d: Data): Data {
    Data(Some("slurm"), d.workDir, Some("docker"), Some("virsh"), 30, Some("LOG_INFO"))
  }

  /** The effect of one callback of the section. */
  function Assigned(d: Data, key: string, val: string): Data {
    var d0 := Defaults(d);
    if Same(key, "scheduler") then d0.(scheduler := Some(val))
    else if Same(key, "work_dir") then d0.(workDir := Some(val))
    else if Same(key, "container_runtime") then d0.(containerRuntime := Some(val))
    else if Same(key, "vm_runtime") then d0.(vmRuntime := Some(val))
    else if Same(key, "workload_timer") then d0.(workloadTimer := Atoi(val))
    else if Same(key, "log_mask") then d0.(logMask := Some(Upper(val)))
    else d0
  }

  /** The parameters after the callbacks of a file; those of other sections do not matter. */
  function AfterCalls(calls: seq<IniText.Call>): Data {
    if calls == [] then Unset
    else
      var before, call := AfterCalls(calls[..|calls| - 1]), calls[|calls| - 1];
      if IsParam(call) then Assigned(before, call.name, call.value) else before
  }

  predicate IsParam(call: IniText.Call) {
    Same(call.section, "params")
  }

  class Params {
    var scheduler: Option<string>
    var workDir: Option<string>
    var containerRuntime: Option<string>
    var vmRuntime: Option<string>
    var workloadTimer: int
    var logMask: Option<string>

    constructor ()
      ensures View() == Unset
    {
      scheduler, workDir, containerRuntime, vmRuntime, workloadTimer, logMask := None, None, None, None, 0, None;
    }

    ghost function View(): Data
      reads this
    {
      Data(scheduler, workDir, containerRuntime, vmRuntime, workloadTimer, logMask)
    }

    /** set_default_params. */
    method SetDefaults()
      modifies this
      ensures View() == Defaults(old(View()))
    {
      scheduler := Some("slurm");
      containerRuntime := Some("docker");
      vmRuntime := Some("virsh");
      workloadTimer := 30;
      logMask := Some("LOG_INFO");
    }

    /** init_params. */
    method InitParams(key: string, val: string)
      modifies this
      ensures View() == Assigned(old(View()), key, val)
    {
      hide Same;
      LogMaskOnly(key);
      SetDefaults();
      if Same(key, "scheduler") {
        scheduler := Some(val);
      } else if Same(key, "work_dir") {
        workDir := Some(val);
      } else if Same(key, "container_runtime") {
        containerRuntime := Some(val);
      } else if Same(key, "vm_runtime") {
        vmRuntime := Some(val);
      } else if Same(key, "workload_timer") {
        workloadTimer := Atoi(val);
      }
      if Same(key, "log_mask") {
        logMask := Some(Upper(val));
      }
    }
  }

  /** The last test of init_params stands outside the chain, but no other key passes it. */
  lemma LogMaskOnly(key: string)
    ensures Same(key, "log_mask") ==>
              !Same(key, "scheduler") && !Same(key, "work_dir") && !Same(key, "container_runtime")
              && !Same(key, "vm_runtime") && !Same(key, "workload_timer")
  {
    if Same(key, "log_mask") {
      assert Lower("log_mask")[0] == 'l' && Lower("work_dir")[0] == 'w';
      assert |Lower("log_mask")| == 8;
    }
  }

  /** The last callback of the section, if there is one. */
  function LastParam(calls: seq<IniText.Call>): Option<IniText.Call> {
    if calls == [] then None
    else if IsParam(calls[|calls| - 1]) then Some(calls[|calls| - 1])
    else LastParam(calls[..|calls| - 1])
  }

  /** The value of the last callback of the section with this key. */
  function LastGiven(calls: seq<IniText.Call>, key: string): Option<string> {
    if calls == [] then None
    else
      var call := calls[|calls| - 1];
      if IsParam(call) && Lower(call.name) == key then Some(call.value) else LastGiven(calls[..|calls| - 1], key)
  }

  /** What a file leaves behind: the working directory last given, and of the other parameters
      the one that the very last callback of the section named, every other at its default. */
  lemma {:induction false} ParamsVerdict(calls: seq<IniText.Call>)
    ensures var d, last := AfterCalls(calls), LastParam(calls);
            && d.workDir == LastGiven(calls, "work_dir")
            && (last.None? ==> d == Unset)
            && (last.Some? ==>
                 var key, val := Lower(last.value.name), last.value.value;
                 && d.scheduler == Some(if key == "scheduler" then val else "slurm")
                 && d.containerRuntime == Some(if key == "container_runtime" then val else "docker")
                 && d.vmRuntime == Some(if key == "vm_runtime" then val else "virsh")
                 && d.workloadTimer == (if key == "workload_timer" then Atoi(val) else 30)
                 && d.logMask == Some(if key == "log_mask" then Upper(val) else "LOG_INFO"))
  {
    if calls != [] {
      var call := calls[|calls| - 1];
      ParamsVerdict(calls[..|calls| - 1]);
      if IsParam(call) {
        LowerKeys();
        LogMaskOnly(call.name);
        hide Lower, Atoi, Upper;
      }
    }
  }

  lemma {:induction false} LastOfTwo(before: seq<IniText.Call>, call: IniText.Call, after: seq<IniText.Call>)
    requires IsParam(call)
    ensures LastParam(before + [call] + after) == if LastParam(after).Some? then LastParam(after) else Some(call)
    decreases |after|
  {
    var calls := before + [call] + after;
    if after != [] {
      assert calls[..|calls| - 1] == before + [call] + after[..|after| - 1];
      LastOfTwo(before, call, after[..|after| - 1]);
    }
  }

  /** A scheduler other than the default one survives the rest of the file if and only if no
      callback of the section follows, or the last one that does gives it again. */
  lemma SchedulerStays(before: seq<IniText.Call>, call: IniText.Call, after: seq<IniText.Call>)
    requires IsParam(call) && Lower(call.name) == "scheduler" && call.value != "slurm"
    ensures AfterCalls(before + [call] + after).scheduler == Some(call.value) <==>
            var last := LastParam(after);
            last.None? || (Lower(last.value.name) == "scheduler" && last.value.value == call.value)
  {
    hide Lower, AfterCalls, LastParam;
    LastOfTwo(before, call, after);
    ParamsVerdict(before + [call] + after);
  }

  lemma LowerKeys()
    ensures Lower("scheduler") == "scheduler" && Lower("work_dir") == "work_dir"
    ensures Lower("container_runtime") == "container_runtime" && Lower("vm_runtime") == "vm_runtime"
    ensures Lower("workload_timer") == "workload_timer" && Lower("log_mask") == "log_mask"
  {
    LowerWord("scheduler");
    LowerWord("work_dir");
    LowerWord("container_runtime");
    LowerWord("vm_runtime");
    LowerWord("workload_timer");
    LowerWord("log_mask");
  }
}
