/**
  Optiboot image selection for MegaCoreX boards: the image name is a template
  over four board parameters, and the image lives in a per-speed directory
  of the framework package.
 */
module Optiboot {
  import opened Text
  import opened Config

  const DefaultUart: string := "uart0"
  const DefaultPins: string := "DEF"
  const DefaultLed: string := "A7"

  /** The four parameters encoded in an image name, as they appear in it. */
  datatype Fields = Fields(uart: string, pins: string, speed: string, led: string)

  /** The naming convention `Optiboot_mega0_<UART>_<PINS>_<SPEED>_<LED>.hex`. */
  function FileName(f: Fields): string {
    "Optiboot_mega0_" + f.uart + "_" + f.pins + "_" + f.speed + "_" + f.led + ".hex"
  }

  /** The parameters a board selects: UART, pins and LED upper-cased with their
      defaults, the speed taken verbatim with the upload speed as default. */
  function BoardFields(board: BoardConfig, uploadSpeed: string): Fields {
    Fields(
      Upper(Get(board.hardware, "uart", DefaultUart)),
      Upper(Get(board.bootloader, "pins", DefaultPins)),
      Get(board.bootloader, "speed", uploadSpeed),
      Upper(Get(board.bootloader, "led_pin", DefaultLed)))
  }

  /** `get_suitable_optiboot_binary(framework_dir, board)` */
  function SuitableBinary(frameworkDir: string, board: BoardConfig, uploadSpeed: string): string {
    var f := BoardFields(board, uploadSpeed);
    PathJoinAll(frameworkDir, ["bootloaders", "optiboot", "bootloaders", "mega0", f.speed, FileName(f)])
  }

  /** Reads an image name back into its four parameters; the partner of `FileName`. */
  function ParseFileName(name: string): Option<Fields> {
    if EndsWith(name, ".hex") then
      var parts := Split(name[..|name| - 4], '_');
      if |parts| == 6 && parts[0] == "Optiboot" && parts[1] == "mega0" then
        Some(Fields(parts[2], parts[3], parts[4], parts[5]))
      else None
    else None
  }

  predicate NoUnderscore(f: Fields) {
    NoneContains([f.uart, f.pins, f.speed, f.led], '_')
  }

  /** A directory component that `os.path.join` appends with exactly one separator on each side. */
  predicate PlainComponent(s: string) {
    s != [] && s[0] != '/' && s[|s| - 1] != '/'
  }

  /** Regrouping the template: a prefix made of two words and separators, then the fields.
      Stated over variables so that the proofs using it do not unfold the string literals. */
  lemma Regroup(pre: string, a: string, b: string, u: string, p: string, s: string, l: string, sep: string, ext: string)
    requires pre == a + sep + b + sep
    ensures pre + u + sep + p + sep + s + sep + l + ext == a + sep + (b + sep + (u + sep + (p + sep + (s + sep + l)))) + ext
  {
  }

  lemma FileNameAsFields(f: Fields)
    ensures FileName(f) == Intercalate(["Optiboot", "mega0", f.uart, f.pins, f.speed, f.led], '_') + ".hex"
  {
    IntercalateCons(f.speed, [f.led], '_');
    IntercalateCons(f.pins, [f.speed, f.led], '_');
    assert [f.pins] + [f.speed, f.led] == [f.pins, f.speed, f.led];
    IntercalateCons(f.uart, [f.pins, f.speed, f.led], '_');
    assert [f.uart] + [f.pins, f.speed, f.led] == [f.uart, f.pins, f.speed, f.led];
    IntercalateCons("mega0", [f.uart, f.pins, f.speed, f.led], '_');
    assert ["mega0"] + [f.uart, f.pins, f.speed, f.led] == ["mega0", f.uart, f.pins, f.speed, f.led];
    IntercalateCons("Optiboot", ["mega0", f.uart, f.pins, f.speed, f.led], '_');
    assert ["Optiboot"] + ["mega0", f.uart, f.pins, f.speed, f.led] == ["Optiboot", "mega0", f.uart, f.pins, f.speed, f.led];
    assert Intercalate([f.led], '_') == f.led;
    assert "Optiboot_mega0_" == "Optiboot" + "_" + "mega0" + "_";
    Regroup("Optiboot_mega0_", "Optiboot", "mega0", f.uart, f.pins, f.speed, f.led, "_", ".hex");
  }

  /** Parsing a synthesized image name recovers its parameters, provided none contains `_`. */
  lemma {:induction false} ParseFileNameRoundTrip(f: Fields)
    requires NoUnderscore(f)
    ensures ParseFileName(FileName(f)) == Some(f)
  {
    var ws := ["Optiboot", "mega0", f.uart, f.pins, f.speed, f.led];
    var body := Intercalate(ws, '_');
    FileNameAsFields(f);
    var name := FileName(f);
    assert name[..|name| - 4] == body;
    assert NoneContains(ws, '_') by {
      assert forall k :: 2 <= k < 6 ==> ws[k] == [f.uart, f.pins, f.speed, f.led][k - 2];
    }
    SplitIntercalate(ws, '_');
  }

  lemma UpperDefaults()
    ensures Upper(DefaultUart) == "UART0" && Upper(DefaultPins) == DefaultPins && Upper(DefaultLed) == DefaultLed
  {
    assert "uart0"[0] == 'u';
  }

  /** With nothing configured the board selects UART `UART0`, pins `DEF`, the
      upload speed and LED `A7`, i.e. `Optiboot_mega0_UART0_DEF_<upload speed>_A7.hex`. */
  lemma DefaultFileName(board: BoardConfig, uploadSpeed: string)
    requires "uart" !in board.hardware
    requires "pins" !in board.bootloader && "speed" !in board.bootloader && "led_pin" !in board.bootloader
    ensures BoardFields(board, uploadSpeed) == Fields("UART0", "DEF", uploadSpeed, "A7")
    ensures FileName(BoardFields(board, uploadSpeed))
            == "Optiboot_mega0_" + "UART0" + "_" + "DEF" + "_" + uploadSpeed + "_" + "A7" + ".hex"
  {
    UpperDefaults();
  }

  /** `<framework>/bootloaders/optiboot/bootloaders/mega0`, one join at a time. */
  function MegaRoot(frameworkDir: string): string {
    PathJoin(PathJoin(PathJoin(PathJoin(frameworkDir, "bootloaders"), "optiboot"), "bootloaders"), "mega0")
  }

  lemma JoinUnderMegaRoot(frameworkDir: string, speed: string, name: string)
    ensures PathJoinAll(frameworkDir, ["bootloaders", "optiboot", "bootloaders", "mega0", speed, name])
            == PathJoin(PathJoin(MegaRoot(frameworkDir), speed), name)
  {
    JoinAllSix(frameworkDir, "bootloaders", "optiboot", "bootloaders", "mega0", speed, name);
  }

  /** The image path is the `mega0` directory, joined with the speed, joined with the name. */
  lemma SuitableBinarySteps(frameworkDir: string, board: BoardConfig, uploadSpeed: string)
    ensures var f := BoardFields(board, uploadSpeed);
            SuitableBinary(frameworkDir, board, uploadSpeed)
            == PathJoin(PathJoin(MegaRoot(frameworkDir), f.speed), FileName(f))
  {
    var f := BoardFields(board, uploadSpeed);
    JoinUnderMegaRoot(frameworkDir, f.speed, FileName(f));
  }

  lemma MegaRootShape(frameworkDir: string)
    ensures MegaRoot(frameworkDir)
            == PathJoin(frameworkDir, "bootloaders") + "/" + "optiboot" + "/" + "bootloaders" + "/" + "mega0"
  {
    var b := PathJoin(frameworkDir, "bootloaders");
    assert b[|b| - 1] == "bootloaders"[10];
    JoinPlain(b, "optiboot");
    var p1 := b + "/" + "optiboot";
    assert p1[|p1| - 1] == "optiboot"[7];
    JoinPlain(p1, "bootloaders");
    var p2 := p1 + "/" + "bootloaders";
    assert p2[|p2| - 1] == "bootloaders"[10];
    JoinPlain(p2, "mega0");
  }

  /** A plain directory component and a relative name below a non-empty
      directory give `<dir>/<component>/<name>`. */
  lemma JoinDirName(root: string, speed: string, name: string)
    requires root != [] && root[|root| - 1] != '/'
    requires PlainComponent(speed) && !IsAbsolute(name)
    ensures PathJoin(PathJoin(root, speed), name) == root + "/" + speed + "/" + name
  {
    JoinPlain(root, speed);
    var dir := root + "/" + speed;
    assert dir[|dir| - 1] == speed[|speed| - 1];
    JoinPlain(dir, name);
  }

  /** A speed that is a plain directory component puts the image exactly at
      `<framework>/bootloaders/optiboot/bootloaders/mega0/<speed>/<name>`. */
  lemma SuitableBinaryPath(frameworkDir: string, board: BoardConfig, uploadSpeed: string)
    requires PlainComponent(Get(board.bootloader, "speed", uploadSpeed))
    ensures var f := BoardFields(board, uploadSpeed);
            SuitableBinary(frameworkDir, board, uploadSpeed)
            == PathJoin(frameworkDir, "bootloaders") + "/" + "optiboot" + "/" + "bootloaders" + "/" + "mega0"
               + "/" + f.speed + "/" + FileName(f)
  {
    var f := BoardFields(board, uploadSpeed);
    SuitableBinarySteps(frameworkDir, board, uploadSpeed);
    MegaRootShape(frameworkDir);
    MegaRootEnd(frameworkDir);
    FileNameRelative(f);
    JoinDirName(MegaRoot(frameworkDir), f.speed, FileName(f));
  }

  /** The image of a board is a file whose name parses back to the upper-cased
      UART, pins and LED and the verbatim speed, and whose directory is
      `mega0/<speed>` with the same speed as the name. */
  lemma SuitableBinaryLayout(frameworkDir: string, board: BoardConfig, uploadSpeed: string)
    requires NoUnderscore(BoardFields(board, uploadSpeed))
    requires PlainComponent(Get(board.bootloader, "speed", uploadSpeed))
    ensures var speed := Get(board.bootloader, "speed", uploadSpeed);
            var name := FileName(BoardFields(board, uploadSpeed));
            && SuitableBinary(frameworkDir, board, uploadSpeed)
               == PathJoin(frameworkDir, "bootloaders") + "/" + "optiboot" + "/" + "bootloaders" + "/" + "mega0"
                  + "/" + speed + "/" + name
            && ParseFileName(name) == Some(Fields(
                 Upper(Get(board.hardware, "uart", DefaultUart)),
                 Upper(Get(board.bootloader, "pins", DefaultPins)),
                 speed,
                 Upper(Get(board.bootloader, "led_pin", DefaultLed))))
  {
    ParseFileNameRoundTrip(BoardFields(board, uploadSpeed));
    SuitableBinaryPath(frameworkDir, board, uploadSpeed);
  }

  /** The Optiboot directory is non-empty and ends with the `0` of `mega0`. */
  lemma MegaRootEnd(frameworkDir: string)
    ensures MegaRoot(frameworkDir) != [] && MegaRoot(frameworkDir)[|MegaRoot(frameworkDir)| - 1] == '0'
  {
    var inner := PathJoin(PathJoin(PathJoin(frameworkDir, "bootloaders"), "optiboot"), "bootloaders");
    assert "mega0" != [] && "mega0"[0] == 'm' && "mega0"[4] == '0';
    JoinLastChar(inner, "mega0");
  }

  /** The image name is a relative, non-empty path component. */
  lemma FileNameRelative(f: Fields)
    ensures FileName(f) != [] && !IsAbsolute(FileName(f))
  {
    assert FileName(f)[0] == 'O';
  }

  /** Whatever the parameters, the image path ends with `/` and the synthesized name. */
  lemma SuitableBinaryEndsWithName(frameworkDir: string, board: BoardConfig, uploadSpeed: string)
    ensures EndsWith(SuitableBinary(frameworkDir, board, uploadSpeed), "/" + FileName(BoardFields(board, uploadSpeed)))
  {
    var f := BoardFields(board, uploadSpeed);
    SuitableBinarySteps(frameworkDir, board, uploadSpeed);
    var root := MegaRoot(frameworkDir);
    MegaRootEnd(frameworkDir);
    JoinNonEmpty(root, f.speed);
    FileNameRelative(f);
    PathJoinSeparates(PathJoin(root, f.speed), FileName(f));
  }

  lemma UpperExample()
    ensures Upper("uart1") == "UART1" && Upper("alt") == "ALT" && Upper("a3") == "A3"
  {
    assert "uart1"[0] == 'u';
    assert "alt"[0] == 'a';
    assert "a3"[0] == 'a';
  }

  lemma ExampleName()
    ensures FileName(Fields("UART1", "ALT", "57600", "A3")) == "Optiboot_mega0_UART1_ALT_57600_A3.hex"
  {
  }

  /** The worked example: UART `uart1`, pins `alt`, speed `57600`, LED `a3`. */
  lemma ExampleImage(frameworkDir: string, uploadSpeed: string)
    ensures var board := BoardConfig(map[], map["uart" := "uart1"],
                                     map["pins" := "alt", "speed" := "57600", "led_pin" := "a3"]);
            SuitableBinary(frameworkDir, board, uploadSpeed)
            == PathJoin(frameworkDir, "bootloaders") + "/" + "optiboot" + "/" + "bootloaders" + "/" + "mega0"
               + "/" + "57600" + "/" + "Optiboot_mega0_UART1_ALT_57600_A3.hex"
  {
    var board := BoardConfig(map[], map["uart" := "uart1"],
                             map["pins" := "alt", "speed" := "57600", "led_pin" := "a3"]);
    UpperExample();
    var f := BoardFields(board, uploadSpeed);
    assert f == Fields("UART1", "ALT", "57600", "A3");
    ExampleName();
    SuitableBinaryPath(frameworkDir, board, uploadSpeed);
  }

  /** The literal parts of the image name and directory contain no space.
      Stated once over literals so that the proofs using it stay cheap for the solver. */
  lemma LiteralsNoSpace()
    ensures ' ' !in DefaultUart && ' ' !in DefaultPins && ' ' !in DefaultLed
    ensures ' ' !in "Optiboot_mega0_" && ' ' !in "_" && ' ' !in ".hex"
    ensures ' ' !in "bootloaders" && ' ' !in "optiboot" && ' ' !in "mega0"
  {
  }

  lemma FileNameNoSpace(f: Fields)
    requires ' ' !in f.uart && ' ' !in f.pins && ' ' !in f.speed && ' ' !in f.led
    ensures ' ' !in FileName(f)
  {
    LiteralsNoSpace();
    var p0 := "Optiboot_mega0_" + f.uart;
    ConcatFree("Optiboot_mega0_", f.uart, ' ');
    ConcatFree(p0, "_", ' ');
    ConcatFree(p0 + "_", f.pins, ' ');
    var p1 := p0 + "_" + f.pins;
    ConcatFree(p1, "_", ' ');
    ConcatFree(p1 + "_", f.speed, ' ');
    var p2 := p1 + "_" + f.speed;
    ConcatFree(p2, "_", ' ');
    ConcatFree(p2 + "_", f.led, ' ');
    ConcatFree(p2 + "_" + f.led, ".hex", ' ');
  }

  /** The image path contains no space when the framework directory, the
      upload speed and the board's `hardware` and `bootloader` values contain none. */
  lemma SuitableBinaryNoSpace(frameworkDir: string, board: BoardConfig, uploadSpeed: string)
    requires ' ' !in frameworkDir && ' ' !in uploadSpeed
    requires NoValueContains(board.hardware, ' ') && NoValueContains(board.bootloader, ' ')
    ensures ' ' !in SuitableBinary(frameworkDir, board, uploadSpeed)
  {
    LiteralsNoSpace();
    GetFree(board.hardware, "uart", DefaultUart, ' ');
    GetFree(board.bootloader, "pins", DefaultPins, ' ');
    GetFree(board.bootloader, "speed", uploadSpeed, ' ');
    GetFree(board.bootloader, "led_pin", DefaultLed, ' ');
    UpperNoSpace(Get(board.hardware, "uart", DefaultUart));
    UpperNoSpace(Get(board.bootloader, "pins", DefaultPins));
    UpperNoSpace(Get(board.bootloader, "led_pin", DefaultLed));
    var f := BoardFields(board, uploadSpeed);
    FileNameNoSpace(f);
    JoinAllSix(frameworkDir, "bootloaders", "optiboot", "bootloaders", "mega0", f.speed, FileName(f));
    var q0 := PathJoin(frameworkDir, "bootloaders");
    PathJoinFree(frameworkDir, "bootloaders", ' ');
    var q1 := PathJoin(q0, "optiboot");
    PathJoinFree(q0, "optiboot", ' ');
    var q2 := PathJoin(q1, "bootloaders");
    PathJoinFree(q1, "bootloaders", ' ');
    var q3 := PathJoin(q2, "mega0");
    PathJoinFree(q2, "mega0", ' ');
    var q4 := PathJoin(q3, f.speed);
    PathJoinFree(q3, f.speed, ' ');
    PathJoinFree(q4, FileName(f), ' ');
  }
}
