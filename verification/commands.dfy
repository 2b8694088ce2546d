/**
 * Sequential command execution (`execute_commands` and
 * `XrandrConfig.execute`): the commands run one at a time in list order and
 * the run stops at the first command that exits with a non-zero status. The
 * failure is logged and swallowed, so the caller always returns normally.
 *
 * Running a shell command is outside the model: `succeeds(cmd)` is an oracle
 * telling whether `cmd` exits with status zero.
 */
module Commands {
  import opened Wrappers

  /** What a run did: the commands started, in order, and the position of
      the failing command if the run stopped early. */
  datatype Execution = Execution(ran: seq<string>, failedAt: Option<nat>)

  /** The reference behaviour: `e` ran the longest prefix of successful
      commands plus, if there is one, the first failing command. */
  predicate StopsAtFirstFailure(commands: seq<string>, succeeds: string -> bool, e: Execution) {
    match e.failedAt
    case None =>
      && e.ran == commands
      && forall i | 0 <= i < |commands| :: succeeds(commands[i])
    case Some(k) =>
      && k < |commands|
      && e.ran == commands[..k + 1]
      && !succeeds(commands[k])
      && forall i | 0 <= i < k :: succeeds(commands[i])
  }

  /** The loop of `execute_commands` as a function on the command list. */
  function Execute(commands: seq<string>, succeeds: string -> bool): (e: Execution)
    ensures StopsAtFirstFailure(commands, succeeds, e)
  {
    if |commands| == 0 then Execution([], None)
    else if !succeeds(commands[0]) then Execution([commands[0]], Some(0))
    else
      var rest := Execute(commands[1..], succeeds);
      var failedAt := match rest.failedAt
        case None => None
        case Some(k) => Some(k + 1);
      var e := Execution([commands[0]] + rest.ran, failedAt);
      assert commands == [commands[0]] + commands[1..];
      e
  }

  /** At most one run satisfies the reference behaviour. */
  lemma StopsAtFirstFailureUnique(commands: seq<string>, succeeds: string -> bool, e1: Execution, e2: Execution)
    requires StopsAtFirstFailure(commands, succeeds, e1)
    requires StopsAtFirstFailure(commands, succeeds, e2)
    ensures e1 == e2
  {
  }

  /** `execute_commands` as written: a `for` loop that stops at the first
      failing command, logs the failure and returns normally. */
  method ExecuteCommands(commands: seq<string>, succeeds: string -> bool) returns (ran: seq<string>, failedAt: Option<nat>)
    ensures |ran| <= |commands| && ran == commands[..|ran|]
    ensures failedAt.None? ==> ran == commands && forall i | 0 <= i < |commands| :: succeeds(commands[i])
    ensures failedAt.Some? ==> failedAt.value == |ran| - 1 && !succeeds(ran[|ran| - 1])
    ensures forall i | 0 <= i < |ran| - 1 :: succeeds(ran[i])
    ensures Execution(ran, failedAt) == Execute(commands, succeeds)
  {
    ran := [];
    failedAt := None;
    var i := 0;
    while i < |commands|
      invariant 0 <= i <= |commands|
      invariant ran == commands[..i]
      invariant forall j | 0 <= j < i :: succeeds(commands[j])
    {
      ran := ran + [commands[i]];
      if !succeeds(commands[i]) {
        failedAt := Some(i);
        StopsAtFirstFailureUnique(commands, succeeds, Execution(ran, failedAt), Execute(commands, succeeds));
        return;
      }
      i := i + 1;
    }
    StopsAtFirstFailureUnique(commands, succeeds, Execution(ran, failedAt), Execute(commands, succeeds));
  }

  /** Nothing runs for an empty list, and the run reports no failure. */
  lemma ExecuteEmpty(succeeds: string -> bool)
    ensures Execute([], succeeds) == Execution([], None)
  {
  }

  /** A failing command is the last one run: nothing after it starts. */
  lemma FailureIsLast(commands: seq<string>, succeeds: string -> bool, k: nat)
    requires k < |commands| && !succeeds(commands[k])
    ensures Execute(commands, succeeds).failedAt.Some?
    ensures Execute(commands, succeeds).failedAt.value <= k
    ensures |Execute(commands, succeeds).ran| <= k + 1
  {
  }
}
