# Bootloader provisioning plan for megaAVR boards — a Dafny model

This project models `builder/bootloader.py` of the PlatformIO `atmelmegaavr`
platform. The script decides which bootloader image an AVR board needs and
which fuse bytes to program. It then returns two actions. The first sets the
fuses: on a standard board it is the avrdude command labelled "Setting fuses",
and on a MegaCoreX board it is whatever the separate `fuses.py` procedure
returns (line 88). The second is the avrdude command labelled "Uploading
bootloader".

The model is functional:

- `Config`: the board manifest is three string maps, `build`, `hardware`
  and `bootloader`. A key path such as `bootloader.file` is a lookup in one
  of them. `board.get("bootloader", {})` is therefore the whole `bootloader`
  map, which holds `file`, `speed`, `pins` and `led_pin` as well as the fuse
  fields. The framework directory, the avrdude directory and `$UPLOAD_SPEED`
  are plain strings (`Environment`). The script's `env.Exit(1)` is the `Err`
  variant of `Result`.
- `Text`: ASCII upper-casing, POSIX `os.path.join`, and `" ".join` with its
  inverse `split`.
- `Optiboot`: the MegaCoreX image name
  `Optiboot_mega0_<UART>_<PINS>_<SPEED>_<LED>.hex`. A parser reads a name back
  into its fields. The image lives in
  `<framework>/bootloaders/optiboot/bootloaders/mega0/<speed>/`.
- `Resolver`: the fallback chain for the bootloader path. File existence is
  an abstract predicate `isFile`. Once the configuration check of lines 69-71
  has passed, the chain is proved equal to "the first existing of three
  candidates"; before it, a standard board with no `bootloader` map stops with
  the missing-configuration error.
- `Avrdude`: the base command lines and the `-U` directives. A reader
  recovers the fuse number and value from a `-Ufuse<N>:w:<v>:m` directive.
- `Fuses`: the nine-slot fuse tuple, with slot 3 reserved. The loop that
  turns it into directives is modelled, and so is the full fuse command.
- `Plan`: the two-action result.

One branch of the script cannot run as written. A standard board is meant to
fall back to `<framework>/bootloaders/<file>`, but the script, at
lines 65-67, calls the bare names `isfile` and `join`, and none of its
imports binds them: lines 15-18 import `sys`, `os`, and `ARGUMENTS`, `Import`
and `Return` from `SCons.Script`. As written, every non-MegaCoreX board therefore stops with a
`NameError`. The model keeps both versions. `Resolver.ResolveAsWritten` is the
script as written. `Resolver.Resolve` is the evident intent
(`os.path.isfile` / `os.path.join`), and the rest of the model uses it (see
Findings).

## Model

| member | source | states |
|---|---|---|
| Text.Upper | builder/bootloader.py:28-31 | `str.upper()` on ASCII: same length, each lower-case letter mapped to its capital, every other character kept, and no lower-case letter left in the result |
| Text.PathJoin | builder/bootloader.py:35-38 | `os.path.join` of two components: the result ends with the second component, an absolute second component replaces the first, and otherwise the first component is a prefix; the result is exactly one character longer than the two components together, that character being the separator right after the first component, when the first component is non-empty and does not end in `/`, and exactly as long as the two together (no separator added) when it is empty or already ends in `/` |
| Text.SplitIntercalate | builder/bootloader.py:126 | splitting a space-joined command line on spaces gives back its words, provided no word contains a space |
| Optiboot.ParseFileNameRoundTrip | builder/bootloader.py:32-33 | the synthesized image name parses back to exactly the four fields it was built from (UART, pins, speed, LED), provided none contains `_` |
| Optiboot.DefaultFileName | builder/bootloader.py:28-33 | a board with no `hardware.uart`, `bootloader.pins`, `bootloader.speed` or `bootloader.led_pin` selects `Optiboot_mega0_UART0_DEF_<upload speed>_A7.hex` |
| Optiboot.SuitableBinaryLayout | builder/bootloader.py:27-40 | the image name parses to the upper-cased UART, pins and LED and the verbatim speed, and the image path is `<framework>/bootloaders/optiboot/bootloaders/mega0/<speed>/<name>` with the same speed as the name |
| Optiboot.SuitableBinaryPath | builder/bootloader.py:35-38 | for a speed that is a plain directory component, the image path is exactly `<framework>/bootloaders/optiboot/bootloaders/mega0/<speed>/<name>` |
| Optiboot.SuitableBinaryEndsWithName | builder/bootloader.py:35-38 | for every board the image path ends with `/` followed by the synthesized name |
| Optiboot.ExampleImage | builder/bootloader.py:27-40 | UART `uart1`, pins `alt`, speed `57600` and LED `a3` select `.../mega0/57600/Optiboot_mega0_UART1_ALT_57600_A3.hex` |
| Resolver.FirstExisting | builder/bootloader.py:60-78 | the reference for resolution: the first path of the list that exists; none exists exactly when the result is `None` |
| Resolver.Resolve | builder/bootloader.py:60-78 | a resolved path exists and is one of the three candidates; the only errors are the two configuration errors; `MissingBootloaderConfig` occurs exactly for a standard board with an empty `bootloader` map; a configured `bootloader.file` that exists is returned unchanged (a board that sets `bootloader.file` has a non-empty map, so it passes the configuration check of lines 69-71) |
| Resolver.ResolveIsFirstExisting | builder/bootloader.py:60-78 | once the configuration check passes, resolution returns the first existing candidate among `bootloader.file`, the family candidate, and that joined under `<framework>/bootloaders`; it fails with `BootloaderImageNotFound` exactly when none exists |
| Resolver.NoCandidateNoImage | builder/bootloader.py:73-78 | if no candidate path exists, resolution fails, with `BootloaderImageNotFound` once the configuration check has passed |
| Resolver.StandardCandidates | builder/bootloader.py:65-74 | on a standard board the candidates are `bootloader.file`, then `<framework>/bootloaders/<file>`, then that path joined under `<framework>/bootloaders` a second time (lines 73-74 apply the join again) |
| Resolver.StandardCandidatesFree | builder/bootloader.py:60-74 | on a standard board no candidate path contains a space when the framework directory and the `bootloader` values contain none |
| Resolver.ResolveAsWritten | builder/bootloader.py:64-67 | as written, every non-MegaCoreX board fails with `NameError`; MegaCoreX boards resolve as intended |
| Resolver.AsWrittenRejectsStandardBoard | builder/bootloader.py:65-67 | a standard board whose configured image exists: the script as written raises `NameError`, while the intended resolution returns that image |
| Avrdude.ParseFuseArgRoundTrip | builder/bootloader.py:121 | a rendered `-Ufuse<N>:w:<v>:m` directive reads back as exactly its fuse number and value |
| Avrdude.ArgShapes | builder/bootloader.py:119-124 | fuse, lock and flash directives are all `-U` write directives; the lock directive never reads as a fuse directive, and a fuse directive is not a lock directive |
| Avrdude.BaseCmdShapes | builder/bootloader.py:45-114 | no word of either base command (the flash base of lines 45-49, the fuse base of lines 110-114) is a write directive or `-v`; `-e` is in the flash command's base but not in the fuse command's base |
| Fuses.SlotsFollowFieldIndex | builder/bootloader.py:96-106 | each named fuse field sits in the slot of its fixed number (WDTCFG=0, BODCFG=1, OSCCFG=2, TCD0CFG=4, SYSCFG0=5, SYSCFG1=6, APPEND=7, BOOTEND=8); no field has number 3, and slot 3 is always empty |
| Fuses.EntriesSound | builder/bootloader.py:119-121 | every planned write carries a non-empty slot's literal value at that slot's number |
| Fuses.EntriesAscending | builder/bootloader.py:119-121 | planned writes are in strictly ascending fuse-number order |
| Fuses.EntriesComplete | builder/bootloader.py:119-121 | every non-empty slot has a planned write |
| Fuses.PlanOf | builder/bootloader.py:90-108 | an empty `bootloader` map is `MissingBootloaderConfig` and nothing else is; the plan's lock is the `LOCKBIT` value when non-empty; no planned write targets fuse 3 |
| Fuses.AssembleWriteArgs | builder/bootloader.py:119-124 | the index loop over the tuple emits exactly the fuse directives of the plan, in order, followed by the lock directive when `LOCKBIT` is non-empty |
| Fuses.FuseArgv | builder/bootloader.py:90-124 | a fuse command is built exactly when the `bootloader` map is non-empty |
| Fuses.FuseArgvShaped | builder/bootloader.py:110-124 | the fuse command begins with exactly the base words `avrdude -p $BOARD_MCU -C "<conf>" -c $UPLOAD_PROTOCOL $UPLOAD_FLAGS`, then has `-v` when verbose, then one directive per planned write in order, then the lock directive last when present |
| Fuses.FuseWritesMatchSlots | builder/bootloader.py:96-121 | each fuse directive writes a non-empty slot's literal value to that slot's number; every non-empty slot is written; directive fuse numbers strictly ascend, so each slot is written exactly once |
| Fuses.ReservedFuseNeverWritten | builder/bootloader.py:100-121 | no fuse directive of any fuse command targets fuse 3 |
| Fuses.LockWrittenLast | builder/bootloader.py:108-124 | a lock directive is present exactly when `LOCKBIT` is non-empty; it is then the last word and writes that value, and no other word is a lock directive |
| Fuses.VerboseBeforeWritesNoErase | builder/bootloader.py:110-124 | `-v` is present exactly when verbose and comes before every `-U` directive; the fuse command never contains `-e` |
| Fuses.FuseArgvSpaceFree | builder/bootloader.py:96-124 | no word of the fuse command contains a space when the avrdude directory and the `bootloader` values contain none |
| Fuses.EmptyConfigRejected | builder/bootloader.py:90-93 | a standard board with an empty `bootloader` map gets no fuse command, only `MissingBootloaderConfig` |
| Plan.FuseAction | builder/bootloader.py:126 | the fuse action exists exactly when the `bootloader` map is non-empty, and it is labelled "Setting fuses" |
| Plan.BootloaderActions | builder/bootloader.py:128-131 | a plan exists exactly when resolution succeeds, and otherwise carries the resolver's error; a plan has exactly two actions: the fuse action first (the MegaCoreX action, or "Setting fuses"), then "Uploading bootloader", whose command ends with `-Uflash:w:"<p>":i` for the existing resolved path `p` |
| Plan.MissingConfigNoActions | builder/bootloader.py:69-71 | a standard board with an empty `bootloader` map yields `MissingBootloaderConfig` and no actions |
| Plan.ImageNotFoundNoActions | builder/bootloader.py:76-78 | once the configuration check of lines 69-71 has passed (a MegaCoreX board, or a non-empty `bootloader` map), when no candidate path exists, the result is `BootloaderImageNotFound` and no actions |
| Plan.ExistingFileFlashedUnchanged | builder/bootloader.py:60-80 | on a MegaCoreX board or one with a non-empty `bootloader` map (which every board that sets `bootloader.file` has), an existing `bootloader.file` yields a plan whose flash command writes that very path |
| Resolver.MegaCoreXCandidatesFree | builder/bootloader.py:27-78 | on MegaCoreX no candidate path contains a space when the framework directory, the upload speed and the `hardware` and `bootloader` values contain none |
| Optiboot.SuitableBinaryNoSpace | builder/bootloader.py:27-40 | the synthesized image path contains no space when the framework directory, the upload speed and the board's `hardware` and `bootloader` values contain none |
| Text.UpperNoSpace | builder/bootloader.py:28-31 | upper-casing never introduces a space |
| Plan.FlashCommandWords | builder/bootloader.py:45-49 | for an avrdude directory and image path without spaces, splitting the flash command line on spaces gives back its words, and those include `-e` |
| Plan.MegaCoreXPlanCommands | builder/bootloader.py:86-131 | on a MegaCoreX board whose image resolves, a plan exists and its first action is the one the fuse procedure returned; when the directories, the upload speed and the `hardware` and `bootloader` values contain no space, splitting the second action's command line on spaces gives back the flash command words of the resolved image, which include `-e` |
| Plan.StandardPlanCommands | builder/bootloader.py:110-131 | on a standard board whose image resolves, and whose framework directory, avrdude directory and `bootloader` values contain no space, a plan exists; splitting the first action's command line on spaces gives back the fuse command words, and splitting the second gives back the flash command words; `-e` is in the flash command and not in the fuse command |

## Left out

- SCons and PlatformIO plumbing (`Import`, `Return`, `env.BoardConfig`, `env.PioPlatform`, `platform.get_package_dir`, `PIOFRAMEWORK` selection, `env.subst`): these become the plain strings of `Config.Environment`.
- `$BOARD_MCU`, `$UPLOAD_PROTOCOL` and `$UPLOAD_FLAGS` stay literal words. SCons substitutes them when the action runs, which is outside this script.
- The filesystem: `os.path.isfile` is the parameter `isFile`.
- `sys.stderr.write` and `env.Exit(1)`: both become an `Err` result, so no actions are produced.
- `env.VerboseAction` and running the commands: an action is a (command line, label) pair.
- The MegaCoreX fuse procedure `fuses.py` (line 88) is not part of this model. Its result is the opaque parameter `megaCoreXFuses`.
- The second missing-configuration check (lines 90-93) is never reached with an empty map, because lines 69-71 have already stopped. `Fuses.FuseArgv` still models it as an `Err`, and `Fuses.EmptyConfigRejected` states it.
- `int(ARGUMENTS.get("PIOVERBOSE", 0))`: verbosity is a boolean input.
- Board manifest values are strings only. The manifest's JSON could also hold numbers, for example a numeric `bootloader.speed`.
- `str.upper()` beyond ASCII. Unicode case mapping is not modelled.
- Windows `os.path.join` rules (drive letters, `\`). Only the POSIX join is modelled.
- Text.SplitIntercalate: the round trip holds only for words without spaces. A path containing a space cannot be split back from the joined command line.
- Plan.StandardPlanCommands: only for boards whose framework directory, avrdude directory and `bootloader` values contain no space. A space inside a value would split one word of the command line into two.
- Plan.MegaCoreXPlanCommands: only when the framework directory, avrdude directory, upload speed and `hardware` and `bootloader` values contain no space, because all of them can reach the image path. It says nothing about the first action's command line, which comes from `fuses.py`.
- Optiboot.ParseFileNameRoundTrip: only for fields without `_`, because the name uses `_` as its field separator.
- Optiboot.SuitableBinaryLayout: only for fields without `_` and a speed that is a plain directory component. For every other board, `Optiboot.SuitableBinaryEndsWithName` gives the weaker statement that the path ends with `/<name>`.

## Findings

| source | as written | input that shows it | evidently intended | confidence | as-written member | corrected member |
|---|---|---|---|---|---|---|
| builder/bootloader.py:65-67 | calls the bare names `isfile(...)` and `join(...)`, but none of the imports on lines 15-18 (`sys`, `os`, and `ARGUMENTS`, `Import`, `Return` from `SCons.Script`) binds them, so Python raises `NameError` | any board whose `build.core` is not `MegaCoreX`, e.g. core `megaavr` with an existing `bootloader.file` `optiboot.hex` | `os.path.isfile(...)` and `os.path.join(...)`, as on lines 62 and 73-74 | medium (the build tool could inject these names), not executed | Resolver.ResolveAsWritten, exhibited by Resolver.AsWrittenRejectsStandardBoard | Resolver.Resolve, with Resolver.ResolveIsFirstExisting |
