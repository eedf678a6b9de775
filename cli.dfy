/**
 * The configuration-editing commands of dev_cleaner_cli: `config filters
 * add/remove/list/reset`, `config list`, `config reset`, the dispatch
 * between them and `DevCleanerCli::process`.
 *
 * The line read from stdin for a reset confirmation and the outcome of
 * `Config::store` are inputs of a run; what a run prints on stdout is one
 * of its results.
 */
module Cli {
  import opened Wrappers
  import Text
  import F = Filters
  import C = Config

  datatype FilterCommands = Add(pattern: string) | Remove(pattern: string) | List | Reset

  datatype ConfigCommands = Filters(filterCommand: Option<FilterCommands>) | List | Reset

  datatype Commands = Config(configCommand: Option<ConfigCommands>)

  /** What `stdin().read_line` gives: a line, or an I/O error. */
  datatype StdinLine = Line(text: string) | ReadFailed

  /** The outside world of one run: the confirmation line and whether `Config::store` succeeds. */
  datatype Io = Io(stdin: StdinLine, storeSucceeds: bool)

  datatype CliError = StdinError | StoreError

  /** `Result<(), Box<dyn Error>>`. */
  datatype Status = Done | Failed(error: CliError)

  /** The configuration after a run, its result and what it printed. */
  datatype Run = Run(config: C.Config, status: Status, printed: string)

  const FilterResetPrompt := "Do you want to reset the filter configuration? [y/N]\n"
  const ConfigResetPrompt := "Do you want to reset the configuration? [y/N]\n"
  const NoFilterCommand := "No filter command provided.\n"

  /** `buf.trim().to_lowercase() == "y"`. */
  predicate Confirms(answer: string)
  {
    Text.ToLower(Text.Trim(answer)) == "y"
  }

  /** `config.store()?`. */
  function Store(io: Io): Status
  {
    if io.storeSucceeds then Done else Failed(StoreError)
  }

  /** `println!("{}", &config)`. */
  function ListOutput(c: C.Config): string
  {
    C.Display(c) + "\n"
  }

  /** `FilterCommands::process`. */
  function FilterProcess(cmd: FilterCommands, c: C.Config, io: Io): Run
  {
    match cmd
    case Add(pattern) => Run(c.(filters := F.Push(c.filters, pattern)), Store(io), "")
    case Remove(pattern) => Run(c.(filters := F.Retain(c.filters, pattern)), Store(io), "")
    case List => Run(c, Done, ListOutput(c))
    case Reset =>
      match io.stdin
      case ReadFailed => Run(c, Failed(StdinError), FilterResetPrompt)
      case Line(answer) =>
        if Confirms(answer) then Run(c.(filters := C.Default().filters), Store(io), FilterResetPrompt)
        else Run(c, Done, FilterResetPrompt)
  }

  /** `ConfigCommands::process`. */
  function ConfigProcess(cmd: ConfigCommands, c: C.Config, io: Io): Run
  {
    match cmd
    case Filters(None) => Run(c, Done, NoFilterCommand)
    case Filters(Some(fc)) => FilterProcess(fc, c, io)
    case List => Run(c, Done, ListOutput(c))
    case Reset =>
      match io.stdin
      case ReadFailed => Run(c, Failed(StdinError), ConfigResetPrompt)
      case Line(answer) =>
        if Confirms(answer) then Run(C.Default(), Store(io), ConfigResetPrompt)
        else Run(c, Done, ConfigResetPrompt)
  }

  /** `Commands::process`: `config` without a subcommand is `config list`. */
  function CommandsProcess(cmd: Commands, c: C.Config, io: Io): Run
  {
    match cmd
    case Config(None) => ConfigProcess(ConfigCommands.List, c, io)
    case Config(Some(cc)) => ConfigProcess(cc, c, io)
  }

  /**
   * `DevCleanerCli::process`: runs the subcommand and discards its result.
   * Without a subcommand the about screen is shown, which leaves the
   * configuration alone; its text is not modelled.
   */
  function CliProcess(command: Option<Commands>, c: C.Config, io: Io): Run
  {
    match command
    case None => Run(c, Done, "")
    case Some(cmd) =>
      var r := CommandsProcess(cmd, c, io);
      Run(r.config, Done, r.printed)
  }

  /** The `&mut Config` the command handlers update in place. */
  class ConfigHandle {
    var config: C.Config

    constructor (initial: C.Config)
      ensures config == initial
    {
      config := initial;
    }

    /** Reads the confirmation and tells whether it is "y". */
    method ReadConfirmation(io: Io) returns (status: Status, confirmed: bool)
      ensures status == (if io.stdin.ReadFailed? then Failed(StdinError) else Done)
      ensures confirmed <==> io.stdin.Line? && Confirms(io.stdin.text)
    {
      match io.stdin {
        case ReadFailed =>
          status, confirmed := Failed(StdinError), false;
        case Line(answer) =>
          var trimmed := Text.Trim(answer);
          status, confirmed := Done, Text.ToLower(trimmed) == "y";
      }
    }

    method ProcessFilterCommand(cmd: FilterCommands, io: Io) returns (status: Status, printed: string)
      modifies this
      ensures Run(config, status, printed) == FilterProcess(cmd, old(config), io)
    {
      match cmd {
        case Add(pattern) =>
          config := config.(filters := F.Push(config.filters, pattern));
          status := Store(io);
          printed := "";
        case Remove(pattern) =>
          config := config.(filters := F.Retain(config.filters, pattern));
          status := Store(io);
          printed := "";
        case List =>
          status, printed := Done, ListOutput(config);
        case Reset =>
          printed := FilterResetPrompt;
          var confirmed;
          status, confirmed := ReadConfirmation(io);
          if confirmed {
            config := config.(filters := C.Default().filters);
            status := Store(io);
          }
      }
    }

    method ProcessConfigCommand(cmd: ConfigCommands, io: Io) returns (status: Status, printed: string)
      modifies this
      ensures Run(config, status, printed) == ConfigProcess(cmd, old(config), io)
    {
      match cmd {
        case Filters(None) =>
          status, printed := Done, NoFilterCommand;
        case Filters(Some(fc)) =>
          status, printed := ProcessFilterCommand(fc, io);
        case List =>
          status, printed := Done, ListOutput(config);
        case Reset =>
          printed := ConfigResetPrompt;
          var confirmed;
          status, confirmed := ReadConfirmation(io);
          if confirmed {
            config := C.Default();
            status := Store(io);
          }
      }
    }

    method ProcessCommands(cmd: Commands, io: Io) returns (status: Status, printed: string)
      modifies this
      ensures Run(config, status, printed) == CommandsProcess(cmd, old(config), io)
    {
      match cmd.configCommand {
        case None =>
          status, printed := ProcessConfigCommand(ConfigCommands.List, io);
        case Some(cc) =>
          status, printed := ProcessConfigCommand(cc, io);
      }
    }

    method ProcessCli(command: Option<Commands>, io: Io) returns (status: Status, printed: string)
      modifies this
      ensures Run(config, status, printed) == CliProcess(command, old(config), io)
      ensures status == Done
    {
      printed := "";
      if command.Some? {
        var discarded;
        discarded, printed := ProcessCommands(command.value, io);
      }
      status := Done;
    }
  }

  // ---------------------------------------------------------------------------
  // What the commands promise.

  /** Some character of the answer is 'y' or 'Y' and all the others are whitespace. */
  ghost predicate LoneY(answer: string, i: int)
  {
    && 0 <= i < |answer|
    && (answer[i] == 'y' || answer[i] == 'Y')
    && Text.AllWhitespaceIn(answer, 0, i) && Text.AllWhitespaceIn(answer, i + 1, |answer|)
  }

  /** The confirmation is a single 'y' or 'Y' with only whitespace around it. */
  lemma ConfirmsIff(answer: string)
    ensures Confirms(answer) <==> exists i :: LoneY(answer, i)
  {
    if Confirms(answer) {
      var i := ConfirmedIsLoneY(answer);
    }
    if i :| LoneY(answer, i) {
      LoneYConfirms(answer, i);
    }
  }

  lemma ConfirmedIsLoneY(answer: string) returns (i: int)
    requires Confirms(answer)
    ensures LoneY(answer, i)
  {
    var t := Text.Trim(answer);
    var a, b :| Text.TrimmedAt(answer, t, a, b);
    var lower := Text.ToLower(t);
    assert |t| == 1;
    assert Text.LowerAscii(t[0]) == lower[0] == 'y';
    assert answer[a] == t[0] && b == a + 1;
    i := a;
  }

  lemma LoneYConfirms(answer: string, i: int)
    requires LoneY(answer, i)
    ensures Confirms(answer)
  {
    Text.TrimAround(answer, i, i + 1);
    assert Text.ToLower(answer[i..i + 1]) == [Text.LowerAscii(answer[i])];
  }

  /** `add` appends the pattern, keeping every earlier entry and duplicates; the result is the store's. */
  lemma AddAppends(c: C.Config, pattern: string, io: Io)
    ensures var r := FilterProcess(Add(pattern), c, io);
      && r.config.filters.entries == c.filters.entries + [pattern]
      && r.status == Store(io)
  {
  }

  /**
   * `remove` drops every entry equal to the pattern and keeps the others in
   * order; it changes nothing when the pattern is absent, and a second
   * `remove` of the same pattern leaves the list as the first one did.
   */
  lemma RemoveDropsAll(c: C.Config, pattern: string, io: Io, io2: Io)
    ensures var r := FilterProcess(Remove(pattern), c, io);
      && pattern !in r.config.filters.entries
      && multiset(r.config.filters.entries) == multiset(c.filters.entries)[pattern := 0]
      && (pattern !in c.filters.entries ==> r.config == c)
      && FilterProcess(Remove(pattern), r.config, io2).config == r.config
      && r.status == Store(io)
  {
    F.RemoveAllIdempotent(c.filters.entries, pattern);
  }

  /** `list`, under `config` or `config filters`, prints the configuration and changes nothing. */
  lemma ListChangesNothing(c: C.Config, io: Io)
    ensures FilterProcess(FilterCommands.List, c, io) == Run(c, Done, ListOutput(c))
    ensures ConfigProcess(ConfigCommands.List, c, io) == Run(c, Done, ListOutput(c))
  {
  }

  /** `config filters reset` restores the default filters exactly when the answer is "y". */
  lemma FilterResetIff(c: C.Config, io: Io)
    ensures var r := FilterProcess(FilterCommands.Reset, c, io);
      && (r.config == c || r.config.filters == C.Default().filters)
      && (r.config.filters == C.Default().filters <==>
            (io.stdin.Line? && Confirms(io.stdin.text)) || c.filters == C.Default().filters)
      && (io.stdin.ReadFailed? ==> r.status == Failed(StdinError))
      && (io.stdin.Line? && !Confirms(io.stdin.text) ==> r == Run(c, Done, FilterResetPrompt))
  {
  }

  /**
   * `config reset` replaces the whole configuration by the default exactly when the answer is "y";
   * a confirmed reset returns the store's result and a declined one succeeds.
   */
  lemma ConfigResetIff(c: C.Config, io: Io)
    ensures var r := ConfigProcess(ConfigCommands.Reset, c, io);
      && r.config == (if io.stdin.Line? && Confirms(io.stdin.text) then C.Default() else c)
      && (io.stdin.ReadFailed? ==> r.status == Failed(StdinError))
      && (io.stdin.Line? ==> r.status == (if Confirms(io.stdin.text) then Store(io) else Done))
      && (r.status == Failed(StoreError) <==> io.stdin.Line? && Confirms(io.stdin.text) && !io.storeSucceeds)
      && r.printed == ConfigResetPrompt
  {
  }

  /** The configuration is stored after add, remove and a confirmed reset, and only then; a failed store is the run's error. */
  lemma StoreFailureIsReported(cmd: FilterCommands, c: C.Config, io: Io)
    ensures FilterProcess(cmd, c, io).status == Failed(StoreError) <==>
              && !io.storeSucceeds
              && (|| cmd.Add? || cmd.Remove?
                  || (cmd.Reset? && io.stdin.Line? && Confirms(io.stdin.text)))
  {
  }

  /** `config` alone lists; `config filters` alone prints a notice and changes nothing. */
  lemma MissingSubcommands(c: C.Config, io: Io)
    ensures CommandsProcess(Config(None), c, io) == Run(c, Done, ListOutput(c))
    ensures ConfigProcess(Filters(None), c, io) == Run(c, Done, NoFilterCommand)
  {
  }

  /** `DevCleanerCli::process` returns `Ok` whatever the subcommand did, keeping its effect on the configuration. */
  lemma CliAlwaysSucceeds(command: Option<Commands>, c: C.Config, io: Io)
    ensures CliProcess(command, c, io).status == Done
    ensures command.Some? ==> CliProcess(command, c, io).config == CommandsProcess(command.value, c, io).config
    ensures command.None? ==> CliProcess(command, c, io).config == c
  {
  }
}
