/**
  Bootloader image resolution: starting from `bootloader.file`, try a
  family-specific replacement and then the framework's `bootloaders`
  directory, and stop with a configuration error when nothing exists.
  File existence is the abstract predicate `isFile`.
 */
module Resolver {
  import opened Text
  import opened Config
  import Optiboot

  /** `os.path.join(framework_dir, "bootloaders", path)` */
  function UnderBootloaders(frameworkDir: string, path: string): string {
    PathJoinAll(frameworkDir, ["bootloaders", path])
  }

  /** The replacement for a missing `bootloader.file`: the synthesized Optiboot
      image on MegaCoreX, the same name under `bootloaders/` otherwise. */
  function FamilyCandidate(board: BoardConfig, env: Environment, path: string): string {
    if IsMegaCoreX(board) then Optiboot.SuitableBinary(env.frameworkDir, board, env.uploadSpeed)
    else UnderBootloaders(env.frameworkDir, path)
  }

  /** The three paths the resolution can end on, in the order they are tried. */
  function Candidates(board: BoardConfig, env: Environment): seq<string> {
    var file := BootloaderFile(board);
    var family := FamilyCandidate(board, env, file);
    [file, family, UnderBootloaders(env.frameworkDir, family)]
  }

  /** The first path of `paths` that exists: the reference the resolver is measured against. */
  function FirstExisting(paths: seq<string>, isFile: string -> bool): (r: Option<string>)
    ensures r.None? <==> forall k :: 0 <= k < |paths| ==> !isFile(paths[k])
    ensures r.Some? ==> exists k :: 0 <= k < |paths| && paths[k] == r.value && isFile(r.value)
                          && forall j :: 0 <= j < k ==> !isFile(paths[j])
  {
    if paths == [] then None
    else if isFile(paths[0]) then Some(paths[0])
    else
      var r := FirstExisting(paths[1..], isFile);
      assert forall k :: 1 <= k < |paths| ==> paths[k] == paths[1..][k - 1];
      r
  }

  /** The last fallback (lines 73-78): join under `bootloaders/` once more, then give up. */
  function Fallback(env: Environment, path: string, isFile: string -> bool): Result<string> {
    var path := if isFile(path) then path else UnderBootloaders(env.frameworkDir, path);
    if isFile(path) then Ok(path) else Err(BootloaderImageNotFound)
  }

  /** The bootloader path resolution of the script, with the standard-family
      branch calling `os.path.isfile` / `os.path.join` (see `ResolveAsWritten`). */
  function Resolve(board: BoardConfig, env: Environment, isFile: string -> bool): (r: Result<string>)
    ensures r.Ok? ==> isFile(r.value) && r.value in Candidates(board, env)
    ensures r.Err? ==> r.error == MissingBootloaderConfig || r.error == BootloaderImageNotFound
    ensures r == Err(MissingBootloaderConfig) <==> !IsMegaCoreX(board) && !HasBootloaderConfig(board)
    ensures isFile(BootloaderFile(board)) && (IsMegaCoreX(board) || HasBootloaderConfig(board))
            ==> r == Ok(BootloaderFile(board))
    ensures "file" in board.bootloader && isFile(board.bootloader["file"]) ==> r == Ok(board.bootloader["file"])
  {
    var file := BootloaderFile(board);
    // lines 61-67: the family-specific replacement of a missing file
    var path := if isFile(file) then file else FamilyCandidate(board, env, file);
    // lines 69-71: only the standard family insists on a `bootloader` map
    if !IsMegaCoreX(board) && !HasBootloaderConfig(board) then Err(MissingBootloaderConfig)
    else Fallback(env, path, isFile)
  }

  lemma FirstOfThree(a: string, b: string, c: string, isFile: string -> bool)
    ensures FirstExisting([a, b, c], isFile)
            == if isFile(a) then Some(a) else if isFile(b) then Some(b) else if isFile(c) then Some(c) else None
  {
    assert [c][1..] == [];
    assert FirstExisting([c], isFile) == if isFile(c) then Some(c) else None;
    assert [b, c][1..] == [c];
    assert FirstExisting([b, c], isFile) == if isFile(b) then Some(b) else FirstExisting([c], isFile);
    assert [a, b, c][1..] == [b, c];
  }

  /** Resolution yields exactly the first existing candidate, and fails with
      `BootloaderImageNotFound` exactly when none exists, once the
      configuration check has passed. */
  lemma ResolveIsFirstExisting(board: BoardConfig, env: Environment, isFile: string -> bool)
    ensures !IsMegaCoreX(board) && !HasBootloaderConfig(board) ==> Resolve(board, env, isFile) == Err(MissingBootloaderConfig)
    ensures IsMegaCoreX(board) || HasBootloaderConfig(board) ==>
              match FirstExisting(Candidates(board, env), isFile)
              case Some(p) => Resolve(board, env, isFile) == Ok(p)
              case None => Resolve(board, env, isFile) == Err(BootloaderImageNotFound)
  {
    var file := BootloaderFile(board);
    var family := FamilyCandidate(board, env, file);
    FirstOfThree(file, family, UnderBootloaders(env.frameworkDir, family), isFile);
  }

  /** When no candidate exists the resolver fails, whatever the family. */
  lemma NoCandidateNoImage(board: BoardConfig, env: Environment, isFile: string -> bool)
    requires forall k :: 0 <= k < 3 ==> !isFile(Candidates(board, env)[k])
    ensures Resolve(board, env, isFile).Err?
    ensures IsMegaCoreX(board) || HasBootloaderConfig(board) ==> Resolve(board, env, isFile) == Err(BootloaderImageNotFound)
  {
    ResolveIsFirstExisting(board, env, isFile);
  }

  lemma UnderBootloadersFree(frameworkDir: string, path: string)
    requires ' ' !in frameworkDir && ' ' !in path
    ensures ' ' !in UnderBootloaders(frameworkDir, path)
  {
    JoinAllTwo(frameworkDir, "bootloaders", path);
    assert ' ' !in "bootloaders";
    PathJoinFree(frameworkDir, "bootloaders", ' ');
    PathJoinFree(PathJoin(frameworkDir, "bootloaders"), path, ' ');
  }

  /** On a standard board the candidates are the file, then the file under
      `bootloaders/`, then that once more. */
  lemma StandardCandidates(board: BoardConfig, env: Environment)
    requires !IsMegaCoreX(board)
    ensures var once := UnderBootloaders(env.frameworkDir, BootloaderFile(board));
            Candidates(board, env) == [BootloaderFile(board), once, UnderBootloaders(env.frameworkDir, once)]
  {
  }

  lemma ThreeFree(a: string, b: string, c: string)
    requires ' ' !in a && ' ' !in b && ' ' !in c
    ensures NoneContains([a, b, c], ' ')
  {
  }

  /** On a standard board no candidate path contains a space when neither the
      framework directory nor any `bootloader` value does. */
  lemma StandardCandidatesFree(board: BoardConfig, env: Environment)
    requires !IsMegaCoreX(board)
    requires ' ' !in env.frameworkDir && NoValueContains(board.bootloader, ' ')
    ensures NoneContains(Candidates(board, env), ' ')
  {
    var file := BootloaderFile(board);
    var once := UnderBootloaders(env.frameworkDir, file);
    StandardCandidates(board, env);
    GetFree(board.bootloader, "file", "", ' ');
    UnderBootloadersFree(env.frameworkDir, file);
    UnderBootloadersFree(env.frameworkDir, once);
    ThreeFree(file, once, UnderBootloaders(env.frameworkDir, once));
  }

  /** On MegaCoreX the candidates are the file, then the synthesized Optiboot
      image, then that image under `bootloaders/`. */
  lemma MegaCoreXCandidates(board: BoardConfig, env: Environment)
    requires IsMegaCoreX(board)
    ensures var image := Optiboot.SuitableBinary(env.frameworkDir, board, env.uploadSpeed);
            Candidates(board, env) == [BootloaderFile(board), image, UnderBootloaders(env.frameworkDir, image)]
  {
  }

  /** On MegaCoreX no candidate path contains a space when neither the
      framework directory, the upload speed nor any `hardware` or
      `bootloader` value does. */
  lemma MegaCoreXCandidatesFree(board: BoardConfig, env: Environment)
    requires IsMegaCoreX(board)
    requires ' ' !in env.frameworkDir && ' ' !in env.uploadSpeed
    requires NoValueContains(board.hardware, ' ') && NoValueContains(board.bootloader, ' ')
    ensures NoneContains(Candidates(board, env), ' ')
  {
    var file := BootloaderFile(board);
    var image := Optiboot.SuitableBinary(env.frameworkDir, board, env.uploadSpeed);
    MegaCoreXCandidates(board, env);
    GetFree(board.bootloader, "file", "", ' ');
    Optiboot.SuitableBinaryNoSpace(env.frameworkDir, board, env.uploadSpeed);
    UnderBootloadersFree(env.frameworkDir, image);
    ThreeFree(file, image, UnderBootloaders(env.frameworkDir, image));
  }

  /** The standard-family branch as the script is written: lines 65-67 call
      the bare names `isfile` and `join`, which none of the script's imports
      binds, so Python raises `NameError` on reaching them. */
  function ResolveAsWritten(board: BoardConfig, env: Environment, isFile: string -> bool): (r: Result<string>)
    ensures !IsMegaCoreX(board) ==> r == Err(NameError("isfile"))
    ensures IsMegaCoreX(board) ==> r == Resolve(board, env, isFile)
  {
    if IsMegaCoreX(board) then
      var path := BootloaderFile(board);
      var path := if isFile(path) then path else Optiboot.SuitableBinary(env.frameworkDir, board, env.uploadSpeed);
      Fallback(env, path, isFile)
    else
      Err(NameError("isfile"))
  }

  /** A standard board whose configured image exists: the script as written
      stops with `NameError`, the intended resolution returns the image. */
  lemma AsWrittenRejectsStandardBoard()
    ensures var board := BoardConfig(map["core" := "megaavr"], map[], map["file" := "optiboot.hex"]);
            var env := Environment("fw", "avrdude", "115200");
            var isFile := (p: string) => p == "optiboot.hex";
            && ResolveAsWritten(board, env, isFile) == Err(NameError("isfile"))
            && Resolve(board, env, isFile) == Ok("optiboot.hex")
  {
    var board := BoardConfig(map["core" := "megaavr"], map[], map["file" := "optiboot.hex"]);
    assert Get(board.build, "core", "") == "megaavr";
    assert "megaavr"[0] != MegaCoreX[0];
  }
}
