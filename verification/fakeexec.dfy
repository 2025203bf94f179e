/**
 The test executor that stands in for running programs: it answers a command from the
 handler registered for the command's full text, and resolves binary names from a table.

 A Go `Executor` is a pointer whose maps are updated in place; here each registration
 returns the updated executor.
 */
module FakeExec {
  import opened Wrappers
  import opened Strings

  /** What `Exec` answers: the command's output and, when it failed, the error. */
  datatype Reply = Reply(output: seq<bv8>, err: Option<ExecError>)

  /** `exec.ErrNotFound`, or whatever error a handler chooses to return. */
  datatype ExecError = ErrNotFound | HandlerError(message: string)

  /** A handler receives the program name and its arguments. */
  type Handler = (string, seq<string>) -> Reply

  datatype Executor = Executor(handlers: map<string, Handler>, binaries: map<string, string>)

  function NewExecutor(): (r: Executor)
  {
    Executor(map[], map[])
  }

  /** Registers `handler` for the command whose full text is `fullCommand`, replacing any other. */
  function AddHandler(e: Executor, fullCommand: string, handler: Handler): (r: Executor)
  {
    e.(handlers := e.handlers[fullCommand := handler])
  }

  /** Registers the path `LookPath` resolves `name` to. */
  function AddBinary(e: Executor, name: string, path: string): (r: Executor)
  {
    e.(binaries := e.binaries[name := path])
  }

  /** The full text of a command: the name, then the arguments, separated by single spaces. */
  function BuildCommandString(name: string, args: seq<string>): (r: string)
  {
    if |args| == 0 then name else name + " " + Join(args, ' ')
  }

  /** Runs the handler registered for the command's full text; without one, `ErrNotFound` and no output. */
  function Exec(e: Executor, name: string, args: seq<string>): (r: Reply)
  {
    var fullCommand := BuildCommandString(name, args);
    if fullCommand in e.handlers then e.handlers[fullCommand](name, args)
    else Reply([], Some(ErrNotFound))
  }

  function LookPath(e: Executor, file: string): (r: Result<string, ExecError>)
  {
    if file in e.binaries then Success(e.binaries[file]) else Failure(ErrNotFound)
  }

  /** A fresh executor knows no command and no binary. */
  lemma NewExecutorKnowsNothing(name: string, args: seq<string>, file: string)
    ensures Exec(NewExecutor(), name, args) == Reply([], Some(ErrNotFound))
    ensures LookPath(NewExecutor(), file) == Failure(ErrNotFound)
  {
  }

  /** A handler registered under a command's full text answers that command. */
  lemma RegisteredHandlerAnswers(e: Executor, name: string, args: seq<string>, handler: Handler)
    ensures Exec(AddHandler(e, BuildCommandString(name, args), handler), name, args) == handler(name, args)
  {
  }

  /** Registering a handler changes no other command's answer. */
  lemma AddHandlerKeepsOthers(e: Executor, fullCommand: string, handler: Handler, name: string, args: seq<string>)
    requires BuildCommandString(name, args) != fullCommand
    ensures Exec(AddHandler(e, fullCommand, handler), name, args) == Exec(e, name, args)
  {
  }

  /** A registered binary resolves to its path, and other names resolve as before. */
  lemma AddBinaryThenLookPath(e: Executor, name: string, path: string, other: string)
    requires other != name
    ensures LookPath(AddBinary(e, name, path), name) == Success(path)
    ensures LookPath(AddBinary(e, name, path), other) == LookPath(e, other)
  {
  }

  /** Without spaces in the name and the arguments, the full text splits back into them. */
  lemma {:induction false} CommandStringSplits(name: string, args: seq<string>)
    requires ' ' !in name
    requires forall i | 0 <= i < |args| :: ' ' !in args[i]
    ensures Split(BuildCommandString(name, args), ' ') == [name] + args
  {
    if |args| == 0 {
      SplitWithoutSeparator(name, ' ');
    } else {
      var parts := [name] + args;
      assert parts[1..] == args;
      assert Join(parts, ' ') == name + " " + Join(args, ' ');
      SplitJoin(parts, ' ');
    }
  }

  /** So, for such commands, the full text determines the name and the arguments. */
  lemma CommandStringInjective(name1: string, args1: seq<string>, name2: string, args2: seq<string>)
    requires ' ' !in name1 && forall i | 0 <= i < |args1| :: ' ' !in args1[i]
    requires ' ' !in name2 && forall i | 0 <= i < |args2| :: ' ' !in args2[i]
    requires BuildCommandString(name1, args1) == BuildCommandString(name2, args2)
    ensures name1 == name2 && args1 == args2
  {
    CommandStringSplits(name1, args1);
    CommandStringSplits(name2, args2);
    assert ([name1] + args1)[1..] == args1;
    assert ([name2] + args2)[1..] == args2;
  }

  /** An argument holding a space and the two arguments it spells out reach the same handler. */
  lemma SpacedArgumentCollides(name: string, x: string, y: string)
    ensures BuildCommandString(name, [x + " " + y]) == BuildCommandString(name, [x, y])
  {
    assert Join([x, y], ' ') == x + " " + y;
  }
}
