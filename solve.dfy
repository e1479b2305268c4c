/**
 * `solve_field` end to end, with the worker pool left out: validate the
 * arguments, build the command template, partition the names into commands,
 * and, once the pool has drained, collect the results.
 */
module Solve {
  import opened Wrappers
  import opened Arguments
  import opened Command
  import opened Partition
  import opened Collect

  /** A call that returned: the commands handed to the pool and the list of renamed files. */
  datatype Solved = Solved(commands: seq<seq<string>>, result: seq<string>)

  /**
   * `dir` is the working directory as the external jobs leave it; `cpus`
   * stands for `cpu_count()`. A TypeError or IndexError is raised before any
   * command is built, so the directory is left as it was; otherwise the
   * commands are the partition of the names behind the template, and the
   * directory and the result are those of collection.
   */
  method SolveField(args: SolveArgs, show: Value -> string, cpus: nat, dir: Directory)
    returns (out: Result<Solved, Error>)
    requires cpus >= 1 && dir.Valid()
    modifies dir
    ensures dir.Valid()
    ensures Validate(args).Err? ==>
              out == Err(Validate(args).error) && dir.entries == old(dir.entries)
    ensures Validate(args).Ok? && Template(show, Validate(args).value).Err? ==>
              out == Err(IndexError) && dir.entries == old(dir.entries)
    ensures Validate(args).Ok? && Template(show, Validate(args).value).Ok? ==>
              var req := Validate(args).value;
              var template := Template(show, req).value;
              && out == Ok(Solved(Commands(template, NameList(show, req.name), cpus),
                                  Targets(old(dir.entries), req.suffix)))
              && dir.entries == Collected(old(dir.entries), req.suffix, req.wcsOutput)
  {
    var checked := Validate(args);
    if checked.Err? {
      return Err(checked.error);
    }
    var req := checked.value;
    var built := BuildCommand(show, req);
    if built.Err? {
      return Err(built.error);
    }
    var cmds := Partition.Partition(built.value, NameList(show, req.name), cpus);
    var result := Collect.Collect(dir, req.suffix, req.wcsOutput);
    out := Ok(Solved(cmds, result));
  }
}
