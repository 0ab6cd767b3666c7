/**
 * The encryption panel's glue around the streaming loop (main.py): the output
 * name of a selected file, how a list of dropped or selected files is split
 * between the input field and the task buffer, the unit chosen to display a
 * size, and what the panel does when a job finishes.
 */
module Panel {
  import opened Common
  import opened Tasks

  const Suffix: string := ".aes"

  /** The output path shown for an input path: the input path with ".aes" appended. */
  function OutputPath(inputPath: string): (out: string)
    ensures |out| == |inputPath| + 4
    ensures out[..|inputPath|] == inputPath && out[|inputPath|..] == Suffix
  {
    inputPath + Suffix
  }

  /** Distinct inputs never share an output path. */
  lemma OutputPathInjective(a: string, b: string)
    requires OutputPath(a) == OutputPath(b)
    ensures a == b
  {
    assert a == OutputPath(a)[..|a|];
  }

  // ---------------------------------------------------------------------------
  // Routing a list of files (emit_extend_buffer)

  /** Which file goes into the input field (if any) and which are queued. */
  datatype Routing = Routing(selected: Option<string>, queued: seq<string>)

  /**
   * With an empty input field the first file is selected and the rest queued;
   * otherwise all are queued. An empty list with an empty field fails: the
   * source indexes its first element.
   */
  function Route(inputField: string, files: seq<string>): (r: Option<Routing>)
    ensures r.None? <==> inputField == "" && files == []
    ensures r.Some? ==> (r.value.selected.Some? <==> inputField == "")
    ensures r.Some? ==>
      (if r.value.selected.Some? then [r.value.selected.value] else []) + r.value.queued == files
  {
    if inputField == "" then
      if files == [] then None else Some(Routing(Some(files[0]), files[1..]))
    else Some(Routing(None, files))
  }

  // ---------------------------------------------------------------------------
  // Size unit (to_human_readable)

  datatype SizeUnit = B | KB | MB | GB

  /** The unit a size is displayed in; thresholds are strict and decimal-binary mixed. */
  function UnitOf(size: int): (u: SizeUnit)
    ensures u == GB <==> size > 1024 * 1000 * 1000
    ensures u == MB <==> 1024 * 1000 < size <= 1024 * 1000 * 1000
    ensures u == KB <==> 1024 < size <= 1024 * 1000
    ensures u == B <==> size <= 1024
  {
    if size > 1024 * 1000 * 1000 then GB
    else if size > 1024 * 1000 then MB
    else if size > 1024 then KB
    else B
  }

  function UnitRank(u: SizeUnit): nat
  {
    match u
    case B => 0
    case KB => 1
    case MB => 2
    case GB => 3
  }

  /** A larger size is never shown in a smaller unit. */
  lemma UnitMonotone(a: int, b: int)
    requires a <= b
    ensures UnitRank(UnitOf(a)) <= UnitRank(UnitOf(b))
  {
  }

  // ---------------------------------------------------------------------------
  // The panel

  /** The panel's path fields and its task buffer. */
  class EncPanel {
    var inputPath: string
    var outputPath: string
    const tasks: TaskBuffer

    constructor ()
      ensures inputPath == "" && outputPath == "" && fresh(tasks) && tasks.buffer == []
    {
      inputPath, outputPath := "", "";
      tasks := new TaskBuffer();
    }

    /** Shows a file in the input field and its ".aes" name in the output field. */
    method EchoSelectedFile(fileName: string)
      modifies this
      ensures inputPath == fileName && outputPath == OutputPath(fileName)
    {
      inputPath := fileName;
      outputPath := OutputPath(fileName);
    }

    /**
     * Files dropped or picked: routed between the input field and the buffer.
     * Selecting a non-empty name fills both fields (and queues nothing more);
     * selecting an empty name would open a file dialog, taken here as cancelled.
     */
    method EmitExtendBuffer(files: seq<string>) returns (ok: bool)
      modifies this, tasks
      ensures ok <==> Route(old(inputPath), files).Some?
      ensures !ok ==> inputPath == old(inputPath) && outputPath == old(outputPath) && tasks.buffer == old(tasks.buffer)
      ensures ok ==> tasks.buffer == old(tasks.buffer) + Route(old(inputPath), files).value.queued
      ensures ok ==> match Route(old(inputPath), files).value.selected
        case Some(f) => f != "" ==> inputPath == f && outputPath == OutputPath(f)
        case None => inputPath == old(inputPath) && outputPath == old(outputPath)
      ensures ok && Route(old(inputPath), files).value.selected == Some("") ==>
        inputPath == old(inputPath) && outputPath == old(outputPath)
    {
      var pending: seq<string>;
      if inputPath == "" {
        if files == [] {
          return false;
        }
        pending := files[1..];
        if files[0] != "" {
          EchoSelectedFile(files[0]);
          // select_file then re-enters emit_extend_buffer with no further files;
          // the input field is now filled, so nothing is queued by it.
          var _ := tasks.Extend([]);
        }
      } else {
        pending := files;
      }
      var _ := tasks.Extend(pending);
      return true;
    }

    /**
     * The job that did `act` has finished: the path fields are cleared, and the
     * buffer's head (if any) is started with the same action and shown in the fields.
     */
    method TaskFinished(act: Action) returns (signal: Signal)
      modifies this, tasks
      ensures (signal, tasks.buffer) == Advance(old(tasks.buffer), act)
      ensures signal.StartTask? ==> inputPath == signal.fileName && outputPath == OutputPath(signal.fileName)
      ensures signal == AllTaskDone ==> inputPath == "" && outputPath == ""
    {
      inputPath, outputPath := "", "";
      var shown;
      signal, shown := tasks.NewTask(act);
      if signal.StartTask? {
        EchoSelectedFile(signal.fileName);
      }
    }
  }
}
