/**
 * Where the diffed report is written: standard output for "-" or an empty
 * argument, otherwise a file created at the given path.
 */
module Output {

  datatype Writer = Stdout | File(path: string)

  /** The outcome of preparing the output: a writer, or the failure to create the named file. */
  datatype Prepared = Ready(writer: Writer) | CreateFailed(path: string)

  /** The destination chosen for an `--output` argument: standard output by default, a file for any other argument. */
  function Destination(output: string): (w: Writer)
    ensures w.Stdout? <==> output == "-" || output == ""
    ensures w.File? ==> w.path == output
  {
    var writer := Stdout;
    if output != "-" && output != "" then File(output) else writer
  }

  /**
   * Prepares the writer for `output`; `canCreate` stands for whether creating
   * a file at a path succeeds. Standard output never fails; a file path fails
   * exactly when its creation fails.
   */
  function PrepareOutput(output: string, canCreate: string -> bool): (r: Prepared)
    ensures r.Ready? ==> r.writer == Destination(output)
    ensures r.CreateFailed? <==> Destination(output).File? && !canCreate(output)
    ensures r.CreateFailed? ==> r.path == output
  {
    match Destination(output)
    case Stdout => Ready(Stdout)
    case File(path) => if canCreate(path) then Ready(File(path)) else CreateFailed(path)
  }
}
