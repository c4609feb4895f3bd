/** The command router of `handleCommand` once the connection is logged in:
    shutdown words, then the `lpv` permission sub-commands, then generic
    execution, all under one catch that turns a fault into "Error: " text.
    Every outside call (LuckPerms, UUID parsing, the proxy's command manager
    and the command source's output buffer) is an input: its result, or the
    message of the exception it throws. */
module Router {
  import opened JavaText

  /** How a call that either returns or throws went. */
  datatype Outcome = Pass | Fail(message: string)

  datatype Option<T> = None | Some(value: T)

  /** How `executeAsync(...).join()` went: it completed with a success flag,
      or it threw. */
  datatype Completion = Completed(success: bool) | Threw(message: string)

  /** The results of the outside calls for one command. */
  datatype Collaborators = Collaborators(
    provider: Outcome,               // LuckPermsProvider.get()
    indexFault: string,              // the message of the index fault of `substring(4)` on "lpv"
    uuidCheck: string -> Outcome,    // UUID.fromString
    loadUser: Outcome,               // userManager.loadUser(uuid).join()
    saveGroup: Outcome,              // clear group nodes, add one, set primary, saveUser(...).join()
    primaryGroup: Option<string>,    // user.getPrimaryGroup()
    permissionMap: Option<string>,   // the permission map's toString()
    execute: Completion,             // executeAsync(commandSender, payload).join()
    flushed: string                  // commandSender.flush()
  )

  /** What the router does with one command: the reply text handed to
      `sendLargeResponse`, and whether the proxy is then shut down. */
  datatype Routed = Routed(reply: string, shutdown: bool)

  /** A branch either produced reply text or threw. */
  datatype Step = Handled(text: string) | Thrown(message: string)

  const SHUTDOWN_MESSAGE: string := "Shutting down the proxy..."
  const HELP_MESSAGE: string := "Available commands: lpv help, lpv user [uuid] parent add [group], lpv user [uuid] info"

  predicate IsShutdownWord(payload: string) {
    EqualsIgnoreCase(payload, "end") || EqualsIgnoreCase(payload, "stop")
  }

  function AddedMessage(uuid: string, group: string): string {
    "Added user " + uuid + " to group " + group
  }

  function InfoMessage(uuid: string, primaryGroup: Option<string>, permissionMap: Option<string>): string {
    "User " + uuid + " info:\n"
    + "Primary Group: " + (match primaryGroup case Some(g) => g case None => "N/A") + "\n"
    + "Permissions: " + (match permissionMap case Some(m) => m case None => "None")
  }

  function ExecutionFailedMessage(payload: string, flushed: string): string {
    "Error executing: " + payload + " (" + flushed + ")"
  }

  /** The `user` sub-commands; None means control falls out of the `lpv`
      block to generic execution. */
  function UserCommand(command: string, env: Collaborators): Option<Step> {
    var parts := Split(command);
    if |parts| < 3 then None
    else match env.uuidCheck(parts[1])
      case Fail(m) => Some(Thrown(m))
      case Pass =>
        if EqualsIgnoreCase(parts[2], "parent") && |parts| == 5 && EqualsIgnoreCase(parts[3], "add") then
          match env.loadUser
          case Fail(m) => Some(Thrown(m))
          case Pass =>
            match env.saveGroup
            case Pass => Some(Handled(AddedMessage(parts[1], parts[4])))
            case Fail(m) => Some(Handled("Failed to add group: " + m))
        else if EqualsIgnoreCase(parts[2], "info") then
          match env.loadUser
          case Fail(m) => Some(Thrown(m))
          case Pass => Some(Handled(InfoMessage(parts[1], env.primaryGroup, env.permissionMap)))
        else None
  }

  /** The block guarded by `payload.startsWith("lpv")`. The fourth character
      is dropped whatever it is, and a bare "lpv" makes `substring(4)` fail. */
  function LpvCommand(payload: string, env: Collaborators): Option<Step>
    requires StartsWith(payload, "lpv")
  {
    match env.provider
    case Fail(m) => Some(Thrown(m))
    case Pass =>
      if |payload| < 4 then Some(Thrown(env.indexFault))
      else LpvSubcommand(Trim(payload[4..]), env)
  }

  /** The `lpv` block once the command after the prefix has been cut out
      and trimmed. */
  function LpvSubcommand(command: string, env: Collaborators): Option<Step> {
    if EqualsIgnoreCase(command, "help") then Some(Handled(HELP_MESSAGE))
    else if StartsWith(command, "user") then UserCommand(command, env)
    else None
  }

  /** Generic execution through the proxy's command manager. */
  function Execute(payload: string, env: Collaborators): Step {
    match env.execute
    case Threw(m) => Thrown(m)
    case Completed(ok) =>
      Handled(if ok then env.flushed else ExecutionFailedMessage(payload, env.flushed))
  }

  /** The top-level catch: a fault becomes "Error: " and its message. */
  function ReplyText(step: Step): string {
    match step
    case Handled(t) => t
    case Thrown(m) => "Error: " + m
  }

  /** `handleCommand` for a logged-in connection, outside calls as inputs. */
  function Route(payload: string, env: Collaborators): Routed {
    if IsShutdownWord(payload) then Routed(SHUTDOWN_MESSAGE, true)
    else
      var special := if StartsWith(payload, "lpv") then LpvCommand(payload, env) else None;
      var step := match special case Some(s) => s case None => Execute(payload, env);
      Routed(ReplyText(step), false)
  }

  /** What generic execution answers: the flushed text unchanged on
      success, wrapped on failure, "Error: " and the message if it threw. */
  function ExecutionReply(payload: string, env: Collaborators): (reply: string)
    ensures env.execute == Completed(true) ==> reply == env.flushed
    ensures env.execute == Completed(false) ==> reply == ExecutionFailedMessage(payload, env.flushed)
    ensures env.execute.Threw? ==> reply == "Error: " + env.execute.message
  {
    ReplyText(Execute(payload, env))
  }

  /** The shutdown action happens exactly for "end" and "stop" in any case,
      and then the reply is the shutdown notice. */
  lemma RouteShutdown(payload: string, env: Collaborators)
    ensures Route(payload, env).shutdown <==> IsShutdownWord(payload)
    ensures IsShutdownWord(payload) ==> Route(payload, env).reply == SHUTDOWN_MESSAGE
  {
  }

  lemma ShutdownWordExamples()
    ensures IsShutdownWord("stop") && IsShutdownWord("STOP") && IsShutdownWord("End")
    ensures !IsShutdownWord("stop ") && !IsShutdownWord("lpv")
  {
    LpvIsNotShutdownWord("lpv");
  }

  /** No `lpv` command is a shutdown word, so the `lpv` block is reached for
      every payload with that prefix. */
  lemma LpvIsNotShutdownWord(payload: string)
    requires StartsWith(payload, "lpv")
    ensures !IsShutdownWord(payload)
  {
    assert payload[0] == 'l';
    assert AsciiLower(payload[0]) != AsciiLower("end"[0]);
    assert AsciiLower(payload[0]) != AsciiLower("stop"[0]);
  }

  /** A command that is neither a shutdown word nor starts with "lpv" goes
      straight to generic execution. */
  lemma RouteGeneric(payload: string, env: Collaborators)
    requires !IsShutdownWord(payload) && !StartsWith(payload, "lpv")
    ensures Route(payload, env) == Routed(ExecutionReply(payload, env), false)
  {
  }

  /** After the prefix and one more character, trimmed "help" in any case
      gives the fixed usage text. */
  lemma RouteHelp(payload: string, env: Collaborators)
    requires StartsWith(payload, "lpv") && |payload| >= 4 && env.provider == Pass
    requires EqualsIgnoreCase(Trim(payload[4..]), "help")
    ensures Route(payload, env) == Routed(HELP_MESSAGE, false)
  {
    LpvIsNotShutdownWord(payload);
  }

  /** `lpv user <uuid> parent add <group>`: exactly five parts, the third
      "parent" and the fourth "add" in any case. A failed `loadUser` is
      caught by the outer catch ("Error: "); once the user is loaded, the
      reply names the user and the group, or the inner catch carries the
      message of the failed update ("Failed to add group: "). */
  lemma RouteParentAdd(payload: string, env: Collaborators)
    requires StartsWith(payload, "lpv") && |payload| >= 4 && env.provider == Pass
    requires var command := Trim(payload[4..]);
      && !EqualsIgnoreCase(command, "help") && StartsWith(command, "user")
      && var parts := Split(command);
      && |parts| == 5 && env.uuidCheck(parts[1]) == Pass
      && EqualsIgnoreCase(parts[2], "parent") && EqualsIgnoreCase(parts[3], "add")
    ensures var parts := Split(Trim(payload[4..]));
      Route(payload, env) == Routed(
        match env.loadUser
        case Fail(m) => "Error: " + m
        case Pass =>
          match env.saveGroup
          case Pass => AddedMessage(parts[1], parts[4])
          case Fail(m) => "Failed to add group: " + m,
        false)
  {
    LpvIsNotShutdownWord(payload);
  }

  /** `lpv user <uuid> info` with at least three parts, "info" in any case as
      the third, and anything after it. A failed `loadUser` is caught by
      the outer catch. */
  lemma RouteInfo(payload: string, env: Collaborators)
    requires StartsWith(payload, "lpv") && |payload| >= 4 && env.provider == Pass
    requires var command := Trim(payload[4..]);
      && !EqualsIgnoreCase(command, "help") && StartsWith(command, "user")
      && var parts := Split(command);
      && |parts| >= 3 && env.uuidCheck(parts[1]) == Pass
      && EqualsIgnoreCase(parts[2], "info")
    ensures var parts := Split(Trim(payload[4..]));
      Route(payload, env) == Routed(
        match env.loadUser
        case Fail(m) => "Error: " + m
        case Pass => InfoMessage(parts[1], env.primaryGroup, env.permissionMap),
        false)
  {
    LpvIsNotShutdownWord(payload);
    var parts := Split(Trim(payload[4..]));
    assert !EqualsIgnoreCase(parts[2], "parent") by {
      assert AsciiLower(parts[2][0]) == AsciiLower("info"[0]);
    }
  }

  /** An `lpv` command that is not help, not a `user` command, or a `user`
      command of another shape, falls through to generic execution. */
  lemma RouteLpvFallsThrough(payload: string, env: Collaborators)
    requires StartsWith(payload, "lpv") && |payload| >= 4 && env.provider == Pass
    requires SubcommandFallsThrough(Trim(payload[4..]), env)
    ensures Route(payload, env) == Routed(ExecutionReply(payload, env), false)
  {
    LpvIsNotShutdownWord(payload);
    LpvCommandFallsThrough(payload, env);
  }

  /** The `lpv` block itself answers nothing for those shapes. */
  lemma LpvCommandFallsThrough(payload: string, env: Collaborators)
    requires StartsWith(payload, "lpv") && |payload| >= 4 && env.provider == Pass
    requires SubcommandFallsThrough(Trim(payload[4..]), env)
    ensures LpvCommand(payload, env) == None
  {
    var command := Trim(payload[4..]);
    assert LpvCommand(payload, env) == LpvSubcommand(command, env);
    if StartsWith(command, "user") {
      UserCommandFallsThrough(command, env);
    }
  }

  /** The shapes of command the `lpv` block does not handle. */
  predicate SubcommandFallsThrough(command: string, env: Collaborators) {
    && !EqualsIgnoreCase(command, "help")
    && (!StartsWith(command, "user")
        || var parts := Split(command);
           || |parts| < 3
           || (&& env.uuidCheck(parts[1]) == Pass
               && !(EqualsIgnoreCase(parts[2], "parent") && |parts| == 5 && EqualsIgnoreCase(parts[3], "add"))
               && !EqualsIgnoreCase(parts[2], "info")))
  }

  /** A `user` command of too few parts, or with a parsable id and neither
      `parent add` of five parts nor `info`, is not handled there. */
  lemma UserCommandFallsThrough(command: string, env: Collaborators)
    requires var parts := Split(command);
      || |parts| < 3
      || (&& env.uuidCheck(parts[1]) == Pass
          && !(EqualsIgnoreCase(parts[2], "parent") && |parts| == 5 && EqualsIgnoreCase(parts[3], "add"))
          && !EqualsIgnoreCase(parts[2], "info"))
    ensures UserCommand(command, env) == None
  {
  }

  /** A bare "lpv" reaches `substring(4)` on three characters; the fault
      (or an earlier one from the LuckPerms provider) becomes the reply. */
  lemma RouteBareLpv(env: Collaborators)
    ensures Route("lpv", env) == Routed(
      "Error: " + (match env.provider case Fail(m) => m case Pass => env.indexFault), false)
  {
    LpvIsNotShutdownWord("lpv");
  }

  /** A LuckPerms provider that cannot be obtained faults every `lpv`
      command, whatever follows the prefix; the outer catch answers it. */
  lemma RouteLpvProviderFault(payload: string, env: Collaborators, m: string)
    requires StartsWith(payload, "lpv") && env.provider == Fail(m)
    ensures Route(payload, env) == Routed("Error: " + m, false)
  {
    LpvIsNotShutdownWord(payload);
  }

  /** `substring(4)` ignores the fourth character: the `lpv` block treats
      any character there like a space. */
  lemma FourthCharacterIgnored(c: char, rest: string, env: Collaborators)
    ensures StartsWith("lpv" + [c] + rest, "lpv") && StartsWith("lpv " + rest, "lpv")
    ensures LpvCommand("lpv" + [c] + rest, env) == LpvCommand("lpv " + rest, env)
  {
    var p, q := "lpv" + [c] + rest, "lpv " + rest;
    assert p[..3] == "lpv" && q[..3] == "lpv";
    assert p[4..] == rest && q[4..] == rest;
  }

  /** A `user` command with at least three parts whose id does not parse as
      a UUID is answered with "Error: " and the parse failure's message,
      whatever its action. */
  lemma RouteInvalidUuid(payload: string, env: Collaborators, m: string)
    requires StartsWith(payload, "lpv") && |payload| >= 4 && env.provider == Pass
    requires var command := Trim(payload[4..]);
      && !EqualsIgnoreCase(command, "help") && StartsWith(command, "user")
      && var parts := Split(command);
      && |parts| >= 3 && env.uuidCheck(parts[1]) == Fail(m)
    ensures Route(payload, env) == Routed("Error: " + m, false)
  {
    LpvIsNotShutdownWord(payload);
  }
}
