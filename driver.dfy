/** The driver's whole run: the transactions are either generated (no file
    named) or loaded from the named files, then sent to the accelerator one
    by one, numbered from 0. A load error ends the run with its exit code
    before anything is sent; otherwise the driver never exits. */
module Driver {
  import opened Base
  import opened Generator
  import opened Loader
  import opened LoaderProperties
  import opened Dispatch

  /** `exitCode` is `Some(code)` when the driver returns `code`, and `None`
      when it goes on waiting for the accelerator after sending everything. */
  method Run(files: seq<File>) returns (fpga: HostToPuppetmasterProxy, exitCode: Option<nat>)
    ensures fresh(fpga)
    ensures files == [] ==>
              exitCode == None &&
              fpga.calls == DispatchLog(Workload(DefaultNumTests, DefaultMaxScheduledObjects, DefaultObjSetSize), 0)
    ensures files != [] && LoadAll(files).Failure? ==>
              exitCode == Some(ExitCode(LoadAll(files).error)) && fpga.calls == []
    ensures files != [] && LoadAll(files).Success? ==>
              exitCode == None && fpga.calls == DispatchLog(LoadAll(files).value, 0)
  {
    fpga := new HostToPuppetmasterProxy();
    var tests: seq<Transaction>;
    if files == [] {
      tests := DefaultTests();
    } else {
      var loaded := LoadTests(files);
      if loaded.Failure? {
        return fpga, Some(ExitCode(loaded.error));
      }
      tests := loaded.value;
      LoadAllSlots(files);
    }
    RunTests(fpga, tests);
    exitCode := None;
  }

  /** Two files run one after the other are numbered as one list: the
      second file's first request carries the number after the first file's
      last. */
  lemma RunNumbering(a: seq<File>, b: seq<File>, k: nat)
    requires LoadAll(a).Success? && LoadAll(b).Success?
    requires k < |LoadAll(b).value|
    ensures LoadAll(a + b).Success? && LoadAll(a + b).value == LoadAll(a).value + LoadAll(b).value
    ensures DispatchLog(LoadAll(a + b).value, 0)[|LoadAll(a).value| + k] ==
            Call(|LoadAll(a).value| + k, LoadAll(b).value[k])
  {
    LoadAllAppend(a, b);
    var log := LoadAll(a + b).value;
    assert log == LoadAll(a).value + LoadAll(b).value;
    DispatchLogAt(log, 0, |LoadAll(a).value| + k);
  }
}
