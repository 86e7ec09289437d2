/**
  The provisioning plan the script returns: a fuse-setting action followed by
  a bootloader-flashing action, or a configuration error and no actions.
 */
module Plan {
  import opened Text
  import opened Config
  import opened Avrdude
  import opened Fuses
  import opened Resolver

  /** `env.VerboseAction(command, label)`: a shell command line and the label shown for it. */
  datatype Action = Action(command: string, description: string)

  const FusesLabel: string := "Setting fuses"
  const FlashLabel: string := "Uploading bootloader"

  /** `" ".join(argv)` */
  function CommandLine(argv: seq<string>): string {
    Intercalate(argv, ' ')
  }

  /** `fuses_action` of the standard family (line 126). */
  function FuseAction(avrdudeDir: string, fuses: map<string, string>, verbose: bool): (r: Result<Action>)
    ensures r.Err? <==> |fuses| == 0
    ensures r.Ok? ==> r.value.description == FusesLabel
  {
    match FuseArgv(avrdudeDir, fuses, verbose)
    case Err(e) => Err(e)
    case Ok(argv) => Ok(Action(CommandLine(argv), FusesLabel))
  }

  /** `common_cmd + bootloader_flags` (lines 45-49, 80). */
  function FlashArgv(avrdudeDir: string, path: string): seq<string> {
    CommonCmd(avrdudeDir) + [FlashArg(path)]
  }

  /** The flash action of line 130. */
  function FlashAction(avrdudeDir: string, path: string): Action {
    Action(CommandLine(FlashArgv(avrdudeDir, path)), FlashLabel)
  }

  /** The flash command line ends with the directive writing the image. */
  lemma FlashCommandEndsWithImage(avrdudeDir: string, path: string)
    ensures EndsWith(FlashAction(avrdudeDir, path).command, FlashArg(path))
  {
    var argv := FlashArgv(avrdudeDir, path);
    IntercalateEndsWithLast(argv, ' ');
    assert argv[|argv| - 1] == FlashArg(path);
  }

  /** `bootloader_actions` (lines 60-131). The MegaCoreX fuse action comes from
      a separate procedure and is taken as the parameter `megaCoreXFuses`. */
  function BootloaderActions(board: BoardConfig, env: Environment, verbose: bool, isFile: string -> bool,
                             megaCoreXFuses: Action): (r: Result<seq<Action>>)
    ensures r.Ok? <==> Resolve(board, env, isFile).Ok?
    ensures r.Err? ==> r.error == Resolve(board, env, isFile).error
    ensures r.Ok? ==> |r.value| == 2
                      && r.value[0].description == (if IsMegaCoreX(board) then megaCoreXFuses.description else FusesLabel)
                      && r.value[1].description == FlashLabel
    ensures r.Ok? && IsMegaCoreX(board) ==> r.value[0] == megaCoreXFuses
    ensures r.Ok? ==> isFile(Resolve(board, env, isFile).value)
                      && EndsWith(r.value[1].command, FlashArg(Resolve(board, env, isFile).value))
  {
    match Resolve(board, env, isFile)
    case Err(e) => Err(e)
    case Ok(path) =>
      var fuses := if IsMegaCoreX(board) then Ok(megaCoreXFuses) else FuseAction(env.avrdudeDir, board.bootloader, verbose);
      match fuses
      case Err(e) => Err(e)
      case Ok(f) =>
        FlashCommandEndsWithImage(env.avrdudeDir, path);
        Ok([f, FlashAction(env.avrdudeDir, path)])
  }

  /** A standard board without a `bootloader` map is refused before any command is built. */
  lemma MissingConfigNoActions(board: BoardConfig, env: Environment, verbose: bool, isFile: string -> bool,
                               megaCoreXFuses: Action)
    requires !IsMegaCoreX(board) && !HasBootloaderConfig(board)
    ensures BootloaderActions(board, env, verbose, isFile, megaCoreXFuses) == Err(MissingBootloaderConfig)
  {
  }

  /** When none of the three candidate paths exists there is no plan. */
  lemma ImageNotFoundNoActions(board: BoardConfig, env: Environment, verbose: bool, isFile: string -> bool,
                               megaCoreXFuses: Action)
    requires forall k :: 0 <= k < 3 ==> !isFile(Candidates(board, env)[k])
    requires IsMegaCoreX(board) || HasBootloaderConfig(board)
    ensures BootloaderActions(board, env, verbose, isFile, megaCoreXFuses) == Err(BootloaderImageNotFound)
  {
    NoCandidateNoImage(board, env, isFile);
  }

  /** An existing `bootloader.file` is flashed as it is given. */
  lemma ExistingFileFlashedUnchanged(board: BoardConfig, env: Environment, verbose: bool, isFile: string -> bool,
                                     megaCoreXFuses: Action)
    requires isFile(BootloaderFile(board))
    requires IsMegaCoreX(board) || HasBootloaderConfig(board)
    ensures BootloaderActions(board, env, verbose, isFile, megaCoreXFuses).Ok?
    ensures EndsWith(BootloaderActions(board, env, verbose, isFile, megaCoreXFuses).value[1].command,
                     FlashArg(BootloaderFile(board)))
  {
  }

  lemma FlashArgvSpaceFree(avrdudeDir: string, path: string)
    requires ' ' !in avrdudeDir && ' ' !in path
    ensures NoneContains(FlashArgv(avrdudeDir, path), ' ')
  {
    BaseCmdSpaceFree(avrdudeDir);
    WordsSpaceFree(avrdudeDir, FuseEntry(0, ""), "", path);
    NoneContainsSnoc(CommonCmd(avrdudeDir), FlashArg(path), ' ');
  }

  /** On a standard board whose directories and `bootloader` values contain no
      space, the first action's words are the fuse command and the second's
      the flash command, which, unlike the fuse command, erases the chip. */
  lemma StandardPlanCommands(board: BoardConfig, env: Environment, verbose: bool, isFile: string -> bool,
                             megaCoreXFuses: Action)
    requires !IsMegaCoreX(board) && Resolve(board, env, isFile).Ok?
    requires ' ' !in env.frameworkDir && ' ' !in env.avrdudeDir && NoValueContains(board.bootloader, ' ')
    ensures BootloaderActions(board, env, verbose, isFile, megaCoreXFuses).Ok?
    ensures Split(BootloaderActions(board, env, verbose, isFile, megaCoreXFuses).value[0].command, ' ')
            == FuseArgv(env.avrdudeDir, board.bootloader, verbose).value
    ensures Split(BootloaderActions(board, env, verbose, isFile, megaCoreXFuses).value[1].command, ' ')
            == FlashArgv(env.avrdudeDir, Resolve(board, env, isFile).value)
    ensures "-e" !in FuseArgv(env.avrdudeDir, board.bootloader, verbose).value
    ensures "-e" in FlashArgv(env.avrdudeDir, Resolve(board, env, isFile).value)
  {
    var path := Resolve(board, env, isFile).value;
    var fuseArgv := FuseArgv(env.avrdudeDir, board.bootloader, verbose).value;
    StandardCandidatesFree(board, env);
    FuseArgvSpaceFree(env.avrdudeDir, board.bootloader, verbose);
    FlashArgvSpaceFree(env.avrdudeDir, path);
    SplitIntercalate(fuseArgv, ' ');
    SplitIntercalate(FlashArgv(env.avrdudeDir, path), ' ');
    VerboseBeforeWritesNoErase(env.avrdudeDir, board.bootloader, verbose);
    BaseCmdShapes(env.avrdudeDir);
  }

  /** The flash command line, split at spaces, gives back its words when the
      avrdude directory and the image path contain no space; it erases the chip. */
  lemma FlashCommandWords(avrdudeDir: string, path: string)
    requires ' ' !in avrdudeDir && ' ' !in path
    ensures Split(FlashAction(avrdudeDir, path).command, ' ') == FlashArgv(avrdudeDir, path)
    ensures "-e" in FlashArgv(avrdudeDir, path)
  {
    FlashArgvSpaceFree(avrdudeDir, path);
    SplitIntercalate(FlashArgv(avrdudeDir, path), ' ');
    BaseCmdShapes(avrdudeDir);
    assert FlashArgv(avrdudeDir, path)[3] == "-e";
  }

  /** On MegaCoreX the first action is the one the board's fuse procedure
      supplies, and, when the directories, the upload speed and the
      `hardware` and `bootloader` values contain no space, the second
      action's words are the flash command of the resolved image, which
      erases the chip. */
  lemma MegaCoreXPlanCommands(board: BoardConfig, env: Environment, verbose: bool, isFile: string -> bool,
                              megaCoreXFuses: Action)
    requires IsMegaCoreX(board) && Resolve(board, env, isFile).Ok?
    requires ' ' !in env.frameworkDir && ' ' !in env.avrdudeDir && ' ' !in env.uploadSpeed
    requires NoValueContains(board.hardware, ' ') && NoValueContains(board.bootloader, ' ')
    ensures BootloaderActions(board, env, verbose, isFile, megaCoreXFuses).Ok?
    ensures BootloaderActions(board, env, verbose, isFile, megaCoreXFuses).value[0] == megaCoreXFuses
    ensures Split(BootloaderActions(board, env, verbose, isFile, megaCoreXFuses).value[1].command, ' ')
            == FlashArgv(env.avrdudeDir, Resolve(board, env, isFile).value)
    ensures "-e" in FlashArgv(env.avrdudeDir, Resolve(board, env, isFile).value)
  {
    var path := Resolve(board, env, isFile).value;
    MegaCoreXCandidatesFree(board, env);
    FlashCommandWords(env.avrdudeDir, path);
  }
}
