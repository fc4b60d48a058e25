/**
 * Scriptotron adapters: turning a script's command-info record into an Enso
 * command or command factory, and choosing the command a factory hands out for
 * a typed postfix.
 *
 * The script function and the `ensoapi` object are opaque: a function is a
 * `ScriptFunc` value, and running a command is modelled as the effect it
 * asks for (a call of the function, or a message to display).
 */
module Adapters {
  import opened Results

  const ArgRequiredMsg: string := "<p>An argument is required.</p>"

  /** An opaque reference to the script-provided Python function. */
  datatype ScriptFunc = ScriptFunc(id: nat)

  /** The `info` dictionary a script supplies for each command. */
  datatype CommandInfo = CommandInfo(
    cmdType: string,
    cmdName: string,
    cmdExpr: string,
    func: ScriptFunc,
    argName: string,
    desc: string,
    help: string,
    isArgRequired: bool)

  /** The positional values a command passes when it calls its function. */
  datatype CallArg = EnsoApi | ArgValue(value: Option<string>)

  /** What running a command does. */
  datatype Effect =
    | Call(func: ScriptFunc, args: seq<CallArg>)
    | DisplayMessage(message: string)

  /** The fields the two command classes set (name, help and description go through the base class). */
  datatype Command =
    | FuncCommand(name: string, func: ScriptFunc, desc: string, help: string,
                  takesArg: bool, argValue: Option<string>)
    | NoArgumentCommand(description: string, message: string)

  /** The state `ArgFuncMixin.__init__` sets up. */
  datatype ArgFunc = ArgFunc(
    cmdName: string,
    func: ScriptFunc,
    desc: string,
    isArgRequired: bool,
    helpText: string,
    name: string,
    prefix: string,
    descriptionText: string,
    help: string)

  /** The two factory classes; only the bounded one keeps a list of valid postfixes. */
  datatype Factory =
    | BoundedArgFuncCommand(mixin: ArgFunc, postfixes: seq<string>)
    | ArbitraryArgFuncCommand(mixin: ArgFunc)

  /** `makeCommandFromInfo` returns either a command or a factory. */
  datatype Made = MadeCommand(command: Command) | MadeFactory(factory: Factory)

  datatype ValueError = ValueError(message: string)

  // ---------------------------------------------------------------------------
  // Commands
  // ---------------------------------------------------------------------------

  /** `FuncCommand.run` and `NoArgumentCommand.run`. */
  function Run(c: Command): (e: Effect)
    ensures c.FuncCommand? ==> e.Call? && e.func == c.func && |e.args| >= 1 && e.args[0] == EnsoApi
    ensures c.FuncCommand? ==> |e.args| == (if c.takesArg then 2 else 1)
    ensures c.FuncCommand? && c.takesArg ==> e.args[1] == ArgValue(c.argValue)
    ensures c.NoArgumentCommand? ==> e == DisplayMessage(c.message)
  {
    match c
    case FuncCommand(_, func, _, _, takesArg, argValue) =>
      if takesArg then Call(func, [EnsoApi, ArgValue(argValue)]) else Call(func, [EnsoApi])
    case NoArgumentCommand(_, message) =>
      DisplayMessage(message)
  }

  // ---------------------------------------------------------------------------
  // ArgFuncMixin
  // ---------------------------------------------------------------------------

  /** `ArgFuncMixin.__init__`. */
  function NewArgFunc(cmdName: string, cmdExpr: string, func: ScriptFunc, argName: string,
                      desc: string, help: string, isArgRequired: bool): (m: ArgFunc)
    ensures m.prefix == cmdName + " " && m.name == cmdExpr
    ensures m.helpText == argName && m.descriptionText == desc && m.desc == desc
    ensures m.cmdName == cmdName && m.func == func && m.help == help
    ensures m.isArgRequired == isArgRequired
  {
    ArgFunc(cmdName, func, desc, isArgRequired, argName, cmdExpr, cmdName + " ", desc, help)
  }

  /** `ArgFuncMixin._generateCommandObj`: the command the factory hands out for `postfix`. */
  function GenerateCommandObj(m: ArgFunc, postfix: string): (c: Command)
    ensures c.NoArgumentCommand? <==> |postfix| == 0 && m.isArgRequired
    ensures c.NoArgumentCommand? ==> c == NoArgumentCommand(m.descriptionText, ArgRequiredMsg)
    ensures c.FuncCommand? ==>
      && c.name == m.cmdName && c.func == m.func && c.desc == m.desc && c.help == m.help
      && (c.takesArg <==> |postfix| > 0) && c.argValue == Some(postfix)
  {
    if |postfix| == 0 && m.isArgRequired then
      NoArgumentCommand(m.descriptionText, ArgRequiredMsg)
    else
      FuncCommand(m.cmdName, m.func, m.desc, m.help, |postfix| > 0, Some(postfix))
  }

  /**
   * What a user gets by typing a postfix and running the command: the
   * function receives the postfix exactly when one was typed, is called with
   * `ensoapi` alone when none was typed and none is required, and otherwise
   * the user is told an argument is required.
   */
  lemma TypedPostfixReachesFunction(m: ArgFunc, postfix: string)
    ensures |postfix| > 0 ==> Run(GenerateCommandObj(m, postfix)) == Call(m.func, [EnsoApi, ArgValue(Some(postfix))])
    ensures |postfix| == 0 && !m.isArgRequired ==> Run(GenerateCommandObj(m, postfix)) == Call(m.func, [EnsoApi])
    ensures |postfix| == 0 && m.isArgRequired ==> Run(GenerateCommandObj(m, postfix)) == DisplayMessage(ArgRequiredMsg)
    ensures Run(GenerateCommandObj(m, postfix)).Call? ==> Run(GenerateCommandObj(m, postfix)).func == m.func
  {
  }

  /** `BoundedArgFuncCommand.update`: adopt the function's valid arguments when it reports any. */
  function Update(f: Factory, validArgs: Option<seq<string>>): (r: Factory)
    requires f.BoundedArgFuncCommand?
    ensures r.BoundedArgFuncCommand? && r.mixin == f.mixin
    ensures r.postfixes == (if validArgs.Some? then validArgs.value else f.postfixes)
  {
    match validArgs
    case Some(args) => f.(postfixes := args)
    case None => f
  }

  /** Updating twice with the same answer is updating once; `None` changes nothing. */
  lemma UpdateIdempotent(f: Factory, validArgs: Option<seq<string>>)
    requires f.BoundedArgFuncCommand?
    ensures Update(Update(f, validArgs), validArgs) == Update(f, validArgs)
    ensures Update(f, None) == f
  {
  }

  // ---------------------------------------------------------------------------
  // makeCommandFromInfo
  // ---------------------------------------------------------------------------

  /** `makeCommandFromInfo`: dispatch on the three command types; anything else raises. */
  function MakeCommandFromInfo(info: CommandInfo): (r: Result<Made, ValueError>)
    ensures info.cmdType == "no-arg" ==>
      r == Ok(MadeCommand(FuncCommand(info.cmdName, info.func, info.desc, info.help, false, None)))
    ensures info.cmdType == "bounded-arg" ==> r.Ok? && r.value.MadeFactory? && r.value.factory.BoundedArgFuncCommand?
    ensures info.cmdType == "arbitrary-arg" ==> r.Ok? && r.value.MadeFactory? && r.value.factory.ArbitraryArgFuncCommand?
    ensures r.Ok? && r.value.MadeFactory? ==>
      r.value.factory.mixin ==
      NewArgFunc(info.cmdName, info.cmdExpr, info.func, info.argName, info.desc, info.help, info.isArgRequired)
    ensures r.Err? <==> info.cmdType !in {"no-arg", "bounded-arg", "arbitrary-arg"}
    ensures r.Err? ==> r.error == ValueError("Unknown command type: " + info.cmdType)
  {
    if info.cmdType == "no-arg" then
      Ok(MadeCommand(FuncCommand(info.cmdName, info.func, info.desc, info.help, false, None)))
    else if info.cmdType == "bounded-arg" || info.cmdType == "arbitrary-arg" then
      var m := NewArgFunc(info.cmdName, info.cmdExpr, info.func, info.argName,
                          info.desc, info.help, info.isArgRequired);
      if info.cmdType == "bounded-arg" then Ok(MadeFactory(BoundedArgFuncCommand(m, [])))
      else Ok(MadeFactory(ArbitraryArgFuncCommand(m)))
    else
      Err(ValueError("Unknown command type: " + info.cmdType))
  }

  /** A "no-arg" command calls its function with `ensoapi` alone. */
  lemma NoArgCommandCallsWithApiOnly(info: CommandInfo)
    requires info.cmdType == "no-arg"
    ensures MakeCommandFromInfo(info).Ok?
    ensures Run(MakeCommandFromInfo(info).value.command) == Call(info.func, [EnsoApi])
  {
  }

  /**
   * The two factory kinds differ only in their class: built from the same
   * record, they hand out the same command for every postfix.
   */
  lemma FactoryKindsAgree(info: CommandInfo, postfix: string)
    requires info.cmdType == "bounded-arg"
    ensures var r := MakeCommandFromInfo(info.(cmdType := "arbitrary-arg"));
            var b := MakeCommandFromInfo(info);
            GenerateCommandObj(r.value.factory.mixin, postfix) == GenerateCommandObj(b.value.factory.mixin, postfix)
  {
  }
}
