/**
 * The dispatch chain of `process_command`: the verb and its arguments select one
 * action. The arity tests sit inside the verb tests, so a known verb with the wrong
 * number of arguments falls through to the final branch, which reports the verb as
 * not recognized.
 */
module Dispatcher {

  datatype Action =
    | List(flags: seq<string>)
    | Pwd
    | Cd(dir: string)
    | Mkdir(dir: string)
    | Rmdir(dir: string)
    | Rm(path: string)
    | Touch(path: string)
    | Mv(from: string, to: string)
    | Cp(from: string, to: string)
    | Clear
    | Exit
    | NotRecognized(verb: string)
    | NoOp

  /** The table of verbs and the argument counts each one acts on. */
  predicate Recognized(verb: string, argc: nat) {
    || verb in {"fd", "ls", "pwd", "clear", "exit"}
    || (verb in {"cd", "mkdir", "rmdir", "rm", "touch"} && argc >= 1)
    || (verb in {"mv", "cp"} && argc == 2)
  }

  /** The verbs that select an action. */
  function VerbsOf(a: Action): set<string> {
    match a
    case List(_) => {"fd", "ls"}
    case Pwd => {"pwd"}
    case Cd(_) => {"cd"}
    case Mkdir(_) => {"mkdir"}
    case Rmdir(_) => {"rmdir"}
    case Rm(_) => {"rm"}
    case Touch(_) => {"touch"}
    case Mv(_, _) => {"mv"}
    case Cp(_, _) => {"cp"}
    case Clear => {"clear"}
    case Exit => {"exit"}
    case NotRecognized(_) => {}
    case NoOp => {}
  }

  /** The arguments an action carries, in the order it was given them. */
  function Operands(a: Action): seq<string> {
    match a
    case List(flags) => flags
    case Cd(d) => [d]
    case Mkdir(d) => [d]
    case Rmdir(d) => [d]
    case Rm(p) => [p]
    case Touch(p) => [p]
    case Mv(x, y) => [x, y]
    case Cp(x, y) => [x, y]
    case _ => []
  }

  /**
   * The action for `verb` with arguments `args`. A verb acts exactly when the
   * table allows its argument count; it then uses a prefix of the arguments (the
   * listing all of them, one-argument verbs the first, `mv` and `cp` both);
   * every other verb is reported by name.
   */
  function Dispatch(verb: string, args: seq<string>): (a: Action)
    ensures a != NoOp
    ensures a.NotRecognized? <==> !Recognized(verb, |args|)
    ensures a.NotRecognized? ==> a.verb == verb
    ensures !a.NotRecognized? ==> verb in VerbsOf(a)
    ensures !a.NotRecognized? ==> |Operands(a)| <= |args| && Operands(a) == args[..|Operands(a)|]
    ensures a.List? ==> Operands(a) == args
  {
    if verb == "fd" || verb == "ls" then List(args)
    else if verb == "pwd" then Pwd
    else if verb == "cd" && args != [] then Cd(args[0])
    else if verb == "mkdir" && args != [] then Mkdir(args[0])
    else if verb == "rmdir" && args != [] then Rmdir(args[0])
    else if verb == "rm" && args != [] then Rm(args[0])
    else if verb == "touch" && args != [] then Touch(args[0])
    else if verb == "mv" && |args| == 2 then Mv(args[0], args[1])
    else if verb == "cp" && |args| == 2 then Cp(args[0], args[1])
    else if verb == "clear" then Clear
    else if verb == "exit" then Exit
    else NotRecognized(verb)
  }

  /** The line printed for a verb that selects nothing. */
  function NotRecognizedMessage(verb: string): (m: string)
    ensures |m| > |verb| && m[|m| - |verb|..] == verb
  {
    "Comando no reconocido: " + verb
  }

  /** One-argument verbs ignore whatever follows their first argument. */
  lemma ExtraArgumentsIgnored(verb: string, x: string, more: seq<string>)
    requires verb in {"cd", "mkdir", "rmdir", "rm", "touch"}
    ensures Dispatch(verb, [x] + more) == Dispatch(verb, [x])
    ensures Operands(Dispatch(verb, [x] + more)) == [x]
  {
  }

  /** `mv` and `cp` act only on exactly two arguments. */
  lemma TwoArgumentVerbs(verb: string, args: seq<string>)
    requires verb in {"mv", "cp"}
    ensures Dispatch(verb, args).NotRecognized? <==> |args| != 2
  {
  }
}
