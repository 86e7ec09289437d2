/**
  The inputs of one provisioning run: the board's key-path configuration, the
  values the surrounding build environment supplies, and the two fatal
  configuration errors.
 */
module Config {

  datatype Option<T> = None | Some(value: T)

  /** Key-path sections of the board manifest this script reads: `build.core`,
      `hardware.uart`, and the whole `bootloader` sub-map (which holds `file`,
      `speed`, `pins`, `led_pin` as well as the named fuse fields). */
  datatype BoardConfig = BoardConfig(
    build: map<string, string>,
    hardware: map<string, string>,
    bootloader: map<string, string>)

  /** Values the build environment provides as plain strings: the framework
      package directory ("" when no framework is selected), the avrdude package
      directory ("" when it is not installed), and `$UPLOAD_SPEED`. */
  datatype Environment = Environment(
    frameworkDir: string,
    avrdudeDir: string,
    uploadSpeed: string)

  /** The fatal errors; `NameError` only arises in the as-written resolver. */
  datatype Error =
    | MissingBootloaderConfig
    | BootloaderImageNotFound
    | NameError(name: string)

  datatype Result<T> = Ok(value: T) | Err(error: Error)

  /** `section.get(key, default)` */
  function Get(section: map<string, string>, key: string, default: string): string {
    if key in section then section[key] else default
  }

  /** No value of the section contains the character `c`. */
  predicate NoValueContains(section: map<string, string>, c: char) {
    forall key :: key in section ==> c !in section[key]
  }

  lemma GetFree(section: map<string, string>, key: string, default: string, c: char)
    requires NoValueContains(section, c) && c !in default
    ensures c !in Get(section, key, default)
  {
  }

  const MegaCoreX: string := "MegaCoreX"

  predicate IsMegaCoreX(board: BoardConfig) {
    Get(board.build, "core", "") == MegaCoreX
  }

  /** Python truthiness of `board.get("bootloader", {})`. */
  predicate HasBootloaderConfig(board: BoardConfig) {
    |board.bootloader| > 0
  }

  /** `board.get("bootloader.file", "")` */
  function BootloaderFile(board: BoardConfig): string {
    Get(board.bootloader, "file", "")
  }
}
