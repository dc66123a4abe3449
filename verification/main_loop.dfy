/**
 * One turn of main's read-fork loop: getcmd reads the line, and when it
 * stored at least one token the shell forks. The child runs the command
 * args[0] names; the parent waits for it or, for a background command,
 * records its pid in the job table.
 */
module MainLoop {
  import opened ShellTypes
  import opened Tokenizer
  import opened GetCmd
  import Dispatch
  import opened Jobs

  /** How a turn ends. */
  datatype Outcome =
    | ShellExits                                      // end of input: getcmd exits the shell
    | NothingToRun                                    // no token on the line: no fork
    | ForkFailed                                      // fork returned -1: the shell exits
    | Ran(cmd: Dispatch.Command, background: bool)    // the child runs cmd; background: not waited for

  /**
   * cnt as line 118 computes it: the comparison binds tighter than the
   * assignment, so cnt receives the truth value of count >= 1.
   */
  function CntAsWritten(count: nat): (cnt: int)
    ensures cnt == 0 || cnt == 1
  {
    if count >= 1 then 1 else 0
  }

  /**
   * As written the branch is still taken exactly when a token was stored,
   * but cnt holds the token count only for counts 0 and 1: a line of three
   * tokens leaves cnt at 1.
   */
  lemma CntAsWrittenLosesCount(count: nat)
    ensures CntAsWritten(count) >= 1 <==> count >= 1
    ensures CntAsWritten(count) == count <==> count <= 1
    ensures CntAsWritten(3) == 1
  {
  }

  /** The empty line has no token: a read of 0 bytes and an all-blank line run nothing alike. */
  lemma NoArgsInEmptyLine()
    ensures ExpectedArgs([]) == []
  {
    assert CStr([]) == [];
    assert MarkBackground([]) == [];
    assert Tokens([]) == [];
  }

  /**
   * One turn of the loop, with cnt receiving the token count. forkResult is
   * what fork returns to the parent: -1, or the child's pid.
   */
  method Turn(input: ReadResult, args: array<Arg>, table: JobTable, forkResult: int)
    returns (cnt: int, outcome: Outcome)
    requires args.Length == MaxInputArgs && table.Valid()
    requires forkResult == -1 || forkResult > 0
    modifies args, table.slots
    ensures table.Valid()
    ensures input.EndOfFile? || input == Line([]) ==> args[..] == old(args[..])
    ensures input.Line? && input.bytes != [] ==> args[..] == ArgVector(ExpectedArgs(input.bytes))
    ensures input.EndOfFile? ==> outcome == ShellExits && table.slots[..] == old(table.slots[..])
    ensures input.Line? ==> var ts := ExpectedArgs(input.bytes);
      cnt == |ts| &&
      (ts == [] ==> outcome == NothingToRun && table.slots[..] == old(table.slots[..])) &&
      (ts != [] && forkResult == -1 ==> outcome == ForkFailed && table.slots[..] == old(table.slots[..])) &&
      (ts != [] && forkResult > 0 ==>
        var bg := Ampersand in CStr(input.bytes);
        outcome == Ran(Dispatch.Classify(ts[0]), bg) &&
        table.slots[..] == if bg then Inserted(old(table.slots[..]), forkResult) else old(table.slots[..]))
  {
    var r, bg := GetCmd.GetCmd(input, args, 0);
    ghost var stored := args[..];
    if r.ExitShell? {
      return 0, ShellExits;
    }
    cnt := r.n;
    NoArgsInEmptyLine();
    if cnt < 1 {
      return cnt, NothingToRun;
    }
    if forkResult == -1 {
      return cnt, ForkFailed;
    }
    // The child: args[0] holds the first token
    var cmd := Dispatch.Classify(args[0].value);
    // The parent: a background child is recorded, any other is waited for
    if bg != 0 {
      table.AddJob(forkResult);
    }
    assert args[..] == stored;
    outcome := Ran(cmd, bg != 0);
  }
}
