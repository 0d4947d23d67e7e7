/**
 * The Open vSwitch version check: ovsToolVersion runs one tool with
 * `--version` and takes the last space-delimited token of the first line of
 * its output; ovsVersion asks the six tools the emulator needs and accepts
 * only when they all report the same version.  Running a tool is outside the
 * model: `run` gives, for each tool name, its exit result and everything it
 * printed.
 */
module OvsVersion {
  import opened Base

  /** What running one tool gives: the command's result (0 on success) and its output. */
  datatype ToolRun = ToolRun(res: int, output: string)

  /** The tools ovsVersion asks, in order. */
  const NeededCommands: seq<string> :=
    ["ovsdb-tool", "ovsdb-server", "ovs-vsctl", "ovs-vswitchd", "ovs-appctl", "ovs-ofctl"]

  // ---------------------------------------------------------------------
  // The first line and its last token
  // ---------------------------------------------------------------------

  /** Where a C-string scan for a newline stops: the first '\n' or NUL at or after `from`, or the end. */
  function StopAt(s: string, from: nat): (k: nat)
    requires from <= |s|
    ensures from <= k <= |s|
    ensures forall i | from <= i < k :: s[i] != '\n' && s[i] != '\0'
    ensures k < |s| ==> s[k] == '\n' || s[k] == '\0'
    decreases |s| - from
  {
    if from == |s| || s[from] == '\n' || s[from] == '\0' then from else StopAt(s, from + 1)
  }

  /** strchr(output, '\n') within the output: the first newline, when no NUL comes before it. */
  function LineEnd(output: string): (r: Option<nat>)
    ensures r.Some? ==> r.value < |output| && output[r.value] == '\n'
    ensures r.Some? ==> forall i | 0 <= i < r.value :: output[i] != '\n' && output[i] != '\0'
  {
    var k := StopAt(output, 0);
    if k < |output| && output[k] == '\n' then Some(k) else None
  }

  /**
   * The last space-delimited token of a line: the longest suffix without a
   * space, which is the whole line when it has no space.
   */
  function LastToken(line: string): (t: string)
    ensures |t| <= |line| && t == line[|line| - |t|..]
    ensures ' ' !in t
    ensures |t| < |line| ==> line[|line| - |t| - 1] == ' '
  {
    if line == [] || line[|line| - 1] == ' ' then []
    else LastToken(line[..|line| - 1]) + [line[|line| - 1]]
  }

  /** A suffix of the line with no space that starts the line or follows a space is the last token. */
  lemma LastTokenUnique(line: string, t: string)
    requires |t| <= |line| && t == line[|line| - |t|..] && ' ' !in t
    requires |t| < |line| ==> line[|line| - |t| - 1] == ' '
    ensures t == LastToken(line)
  {
  }

  /**
   * ovsToolVersion: nothing when the command failed or printed nothing, or
   * when the output has no newline before any NUL; otherwise the last token
   * of the first line.
   */
  function VersionOf(run: ToolRun): (r: Option<string>)
    ensures r.Some? ==> run.res == 0 && LineEnd(run.output).Some?
    ensures r.Some? ==> ' ' !in r.value && '\n' !in r.value
  {
    if run.res != 0 || |run.output| < 1 then None
    else match LineEnd(run.output)
      case None => None
      case Some(k) => Some(LastToken(run.output[..k]))
  }

  /** The version comes from the first line: what follows the first newline never matters. */
  lemma VersionOfFirstLine(res: int, line: string, rest: string)
    requires '\n' !in line && '\0' !in line
    ensures VersionOf(ToolRun(res, line + "\n" + rest)) == if res == 0 then Some(LastToken(line)) else None
  {
    var output := line + "\n" + rest;
    assert output[..|line|] == line;
    StopAtFirst(output, 0, |line|);
  }

  /**
   * ovsToolVersion on the buffer that received the output: find the newline,
   * overwrite it with a NUL, and walk back to the last space before it.
   */
  method ToolVersion(run: ToolRun) returns (version: Option<string>)
    ensures version == VersionOf(run)
  {
    if run.res != 0 || |run.output| < 1 {
      return None;
    }
    var output := new char[|run.output|](i requires 0 <= i < |run.output| => run.output[i]);
    assert output[..] == run.output;
    var p := FindLineEnd(output);
    if p == output.Length || output[p] != '\n' {
      return None;
    }
    output[p] := '\0';
    var start := TokenStart(output, p);
    version := Some(output[start..p]);
    ghost var line := run.output[..p];
    assert output[start..p] == line[start..];
    LastTokenUnique(line, output[start..p]);
  }

  /** The strchr scan: the first newline or NUL in the buffer, or its length. */
  method FindLineEnd(output: array<char>) returns (p: nat)
    ensures p == StopAt(output[..], 0)
  {
    p := 0;
    while p < output.Length && output[p] != '\n' && output[p] != '\0'
      invariant 0 <= p <= output.Length
      invariant forall i | 0 <= i < p :: output[i] != '\n' && output[i] != '\0'
    {
      p := p + 1;
    }
    StopAtFirst(output[..], 0, p);
  }

  /**
   * The backward walk from the terminator: the token starts just after the
   * last space before `p`, or at the start of the buffer.
   */
  method TokenStart(output: array<char>, p: nat) returns (start: nat)
    requires p < output.Length && output[p] != ' '
    ensures start <= p && ' ' !in output[start..p]
    ensures start > 0 ==> output[start - 1] == ' '
  {
    var q: int := p;
    while q >= 0 && output[q] != ' '
      invariant -1 <= q <= p
      invariant forall j | q < j <= p :: output[j] != ' '
    {
      q := q - 1;
    }
    start := q + 1;
  }

  lemma {:induction false} StopAtFirst(s: string, from: nat, k: nat)
    requires from <= k <= |s|
    requires forall i | from <= i < k :: s[i] != '\n' && s[i] != '\0'
    requires k < |s| ==> s[k] == '\n' || s[k] == '\0'
    ensures StopAt(s, from) == k
    decreases k - from
  {
    if from < k {
      StopAtFirst(s, from + 1, k);
    }
  }

  // ---------------------------------------------------------------------
  // Agreement of all tools
  // ---------------------------------------------------------------------

  /** Tool i reported a version, and it is the version of the first tool. */
  predicate Agrees(run: string -> ToolRun, i: nat)
    requires i < |NeededCommands|
  {
    VersionOf(run(NeededCommands[i])).Some? && VersionOf(run(NeededCommands[i])) == VersionOf(run(NeededCommands[0]))
  }

  /**
   * ovsVersion: the common version when every tool reports the same one, and
   * nothing otherwise.  `asked` is how many tools were run: the loop stops at
   * the first tool without a version or with a different one.
   */
  method Version(run: string -> ToolRun) returns (version: Option<string>, asked: nat)
    ensures version.Some? <==> forall i | 0 <= i < |NeededCommands| :: Agrees(run, i)
    ensures version.Some? ==> version == VersionOf(run(NeededCommands[0]))
    ensures 1 <= asked <= |NeededCommands|
    ensures forall i | 0 <= i < asked - 1 :: Agrees(run, i)
    ensures asked < |NeededCommands| || version.None? ==> !Agrees(run, asked - 1)
  {
    version := None;
    var i := 0;
    while i < |NeededCommands|
      invariant 0 <= i <= |NeededCommands|
      invariant forall j | 0 <= j < i :: Agrees(run, j)
      invariant i == 0 <==> version.None?
      invariant i > 0 ==> version == VersionOf(run(NeededCommands[0]))
    {
      var cmdVersion := ToolVersion(run(NeededCommands[i]));
      if cmdVersion.None? {
        assert !Agrees(run, i);
        return None, i + 1;
      }
      if version.None? {
        version := cmdVersion;
      } else if cmdVersion != version {
        assert !Agrees(run, i);
        return None, i + 1;
      }
      i := i + 1;
    }
    return version, |NeededCommands|;
  }

  // ---------------------------------------------------------------------
  // The scan as written: strchr over the whole buffer
  // ---------------------------------------------------------------------

  /**
   * ovsToolVersion as written: the output buffer is not NUL-terminated (the
   * command's bytes are appended without one), so strchr runs on past the
   * output into whatever the buffer held before (`stale`).  Defined when the
   * scan stops inside the buffer.
   */
  function VersionAsWritten(run: ToolRun, stale: string): (r: Option<string>)
    requires StopAt(run.output + stale, 0) < |run.output + stale|
  {
    var block := run.output + stale;
    if run.res != 0 || |run.output| < 1 then None
    else
      var k := StopAt(block, 0);
      if block[k] == '\n' then Some(LastToken(block[..k])) else None
  }

  /** When the output itself holds a newline or a NUL, the unbounded scan stops inside it and agrees. */
  lemma AsWrittenAgrees(run: ToolRun, stale: string)
    requires StopAt(run.output, 0) < |run.output|
    ensures StopAt(run.output + stale, 0) < |run.output + stale|
    ensures VersionAsWritten(run, stale) == VersionOf(run)
  {
    var block := run.output + stale;
    var k := StopAt(run.output, 0);
    StopAtFirst(block, 0, k);
    assert block[..k] == run.output[..k];
  }

  /**
   * An output without a newline: the bounded scan reports no version, the
   * scan as written finds a newline left in the buffer past the output.
   */
  lemma AsWrittenReadsStale()
    ensures VersionOf(ToolRun(0, "2.5.0")) == None
    ensures StopAt("2.5.0" + "\n", 0) == 5
    ensures VersionAsWritten(ToolRun(0, "2.5.0"), "\n") == Some("2.5.0")
  {
    var out := "2.5.0";
    StopAtFirst(out, 0, 5);
    StopAtFirst(out + "\n", 0, 5);
    assert (out + "\n")[..5] == out;
    LastTokenUnique(out, out);
  }
}
