/**
 * The child's choice of what to run: args[0] is compared with the names of
 * the built-ins, in the order echo, cd, pwd, exit, fg, jobs; any other name
 * takes the external-command path.
 */
module Dispatch {
  import opened ShellTypes

  datatype Command = Echo | Cd | Pwd | Exit | Fg | Jobs | External

  /** The name a built-in is called by, in ASCII bytes. */
  function Name(c: Command): (name: seq<Byte>)
    requires c != External
    ensures name != [] && Nul !in name
  {
    match c
    case Echo => [101, 99, 104, 111]   // "echo"
    case Cd => [99, 100]               // "cd"
    case Pwd => [112, 119, 100]        // "pwd"
    case Exit => [101, 120, 105, 116]  // "exit"
    case Fg => [102, 103]              // "fg"
    case Jobs => [106, 111, 98, 115]   // "jobs"
  }

  /** The strcmp chain on args[0]: the first built-in whose name equals it, else External. */
  function Classify(arg0: seq<Byte>): (c: Command)
    ensures c != External ==> arg0 == Name(c)
    ensures c == External <==> forall b: Command :: b != External ==> arg0 != Name(b)
  {
    if arg0 == Name(Echo) then Echo
    else if arg0 == Name(Cd) then Cd
    else if arg0 == Name(Pwd) then Pwd
    else if arg0 == Name(Exit) then Exit
    else if arg0 == Name(Fg) then Fg
    else if arg0 == Name(Jobs) then Jobs
    else External
  }

  /** Each built-in is reached by its own name: the order of the tests never shadows one. */
  lemma ClassifyName(c: Command)
    requires c != External
    ensures Classify(Name(c)) == c
  {
  }

  /** The built-in names are pairwise different. */
  lemma NamesDistinct(b: Command, c: Command)
    requires b != External && c != External && b != c
    ensures Name(b) != Name(c)
  {
    ClassifyName(b);
    ClassifyName(c);
  }
}
