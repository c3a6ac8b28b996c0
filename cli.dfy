/** The command line (`if __name__ == "__main__":`): no argument prints the usage and
    exits with status 1, `--edit-config` runs the configuration editor, anything else
    is the name of the file to generate. The configuration file is the value `stored`
    before the run and `store` after it; the generated file is returned as its path and
    text. An input that runs out before the last question ends the run with status 1,
    as the uncaught end-of-file error does. */
module Cli {
  import opened Wrappers
  import opened PyText
  import opened ConfigStore
  import opened Generator

  const EditFlag: string := "--edit-config"

  datatype Command =
    | Usage                       // no argument after the script name
    | EditConfig                  // `--edit-config`
    | CreateFile(filename: string)

  /** The branch the entry point takes for the argument vector `argv` (script name first,
      so never empty). */
  function Dispatch(argv: seq<string>): (command: Command)
    requires |argv| >= 1
    ensures command == Usage <==> |argv| == 1
    ensures command == EditConfig <==> |argv| > 1 && argv[1] == EditFlag
    ensures command.CreateFile? ==> |argv| > 1 && argv[1] != EditFlag && command.filename == argv[1]
  {
    if |argv| == 1 then Usage
    else if argv[1] == EditFlag then EditConfig
    else CreateFile(argv[1])
  }

  /** A file written by the run. */
  datatype File = File(path: string, content: string)

  /** One run of the program: the exit status, the configuration file afterwards and the
      generated file, if any. */
  method Run(argv: seq<string>, stored: Option<Entries>, year: nat, responses: seq<string>)
    returns (status: nat, store: Option<Entries>, written: Option<File>)
    requires |argv| >= 1
    requires Dispatch(argv) == EditConfig && stored.Some? ==> HasFields(stored.value)
    ensures Dispatch(argv) == Usage ==> status == 1 && store == stored && written == None
    ensures Dispatch(argv) == EditConfig ==>
      && written == None
      && (|responses| <= |FieldOrder| ==> status == 1 && store == stored)
      && (|responses| > |FieldOrder| && IsYes(responses[|FieldOrder|]) ==>
            status == 0 && store == Some(Edited(LoadConfig(stored), responses[..|FieldOrder|])))
      && (|responses| > |FieldOrder| && !IsYes(responses[|FieldOrder|]) ==> status == 0 && store == stored)
    ensures Dispatch(argv).CreateFile? ==>
      var generated := Generate(Dispatch(argv).filename, year, LoadConfig(stored), responses);
      && (generated.None? ==> status == 1 && store == stored && written == None)
      && (generated.Some? ==>
            && status == 0
            && written == Some(File(Dispatch(argv).filename + ".py", generated.value.text))
            && store == if generated.value.persisted
                        then Some(LoadConfig(stored)[GithubUrl := Some(generated.value.githubUrl)])
                        else stored)
  {
    var command := Dispatch(argv);
    if command == Usage {
      return 1, stored, None;
    }
    if command == EditConfig {
      var outcome := EditConfigFile(stored, responses);
      status := if outcome == InputExhausted then 1 else 0;
      store := if outcome.Saved? then Some(outcome.entries) else stored;
      written := None;
      return;
    }
    var filename := command.filename;
    var config := new Config.Load(stored);
    var result := CreateBoilerplate(filename, config, year, responses);
    if result.None? {
      return 1, stored, None;
    }
    status := 0;
    written := Some(File(filename + ".py", result.value.text));
    store := if result.value.persisted then Some(config.entries) else stored;
  }
}
