/**
  The avrdude command-line vocabulary the script emits: the two base
  invocations and the `-U` memory-write directives, with a reader for fuse
  directives that recovers the fuse number and value written.
 */
module Avrdude {
  import opened Text
  import opened Config

  /** A fuse number: a position in the nine-slot fuse tuple. */
  type FuseIndex = i: int | 0 <= i < 9

  /** One fuse write: fuse number and the literal value from the board manifest. */
  datatype FuseEntry = FuseEntry(index: FuseIndex, value: string)

  function Quote(s: string): string {
    "\"" + s + "\""
  }

  /** `'"%s"' % os.path.join(AVRDUDE_PATH, "avrdude.conf")` */
  function ConfigArg(avrdudeDir: string): string {
    Quote(PathJoin(avrdudeDir, "avrdude.conf"))
  }

  /** `common_cmd` (lines 45-49), the flash invocation: it erases the chip with `-e`. */
  function CommonCmd(avrdudeDir: string): seq<string> {
    ["avrdude", "-p", "$BOARD_MCU", "-e", "-C", ConfigArg(avrdudeDir), "-c", "$UPLOAD_PROTOCOL", "$UPLOAD_FLAGS"]
  }

  /** The head of `fuses_cmd` (lines 110-114): the same invocation without `-e`. */
  function FuseBaseCmd(avrdudeDir: string): seq<string> {
    ["avrdude", "-p", "$BOARD_MCU", "-C", ConfigArg(avrdudeDir), "-c", "$UPLOAD_PROTOCOL", "$UPLOAD_FLAGS"]
  }

  function Digit(i: FuseIndex): char {
    ('0' as int + i) as char
  }

  /** `"-Ufuse%d:w:%s:m" % (idx, value)` */
  function FuseArg(e: FuseEntry): string {
    "-Ufuse" + [Digit(e.index)] + ":w:" + e.value + ":m"
  }

  /** `"-Ulock:w:%s:m" % lock_fuse` */
  function LockArg(v: string): string {
    "-Ulock:w:" + v + ":m"
  }

  /** `'-Uflash:w:"%s":i' % bootloader_path` */
  function FlashArg(path: string): string {
    "-Uflash:w:" + Quote(path) + ":i"
  }

  /** Any `-U` memory-write directive. */
  predicate IsWriteArg(a: string) {
    |a| >= 2 && a[0] == '-' && a[1] == 'U'
  }

  predicate IsLockArg(a: string) {
    |a| >= 11 && a[..9] == "-Ulock:w:" && a[|a| - 2..] == ":m"
  }

  /** Reads a fuse directive back into the fuse number and value it writes. */
  function ParseFuseArg(a: string): (r: Option<FuseEntry>)
    ensures r.Some? ==> IsWriteArg(a) && !IsLockArg(a)
  {
    if |a| >= 12 && a[..6] == "-Ufuse" && '0' <= a[6] <= '8' && a[7..10] == ":w:" && a[|a| - 2..] == ":m" then
      assert a[2] == "-Ufuse"[2];
      Some(FuseEntry(a[6] as int - '0' as int, a[10..|a| - 2]))
    else None
  }

  /** A fuse directive names exactly its fuse number and value: reading it back recovers both. */
  lemma ParseFuseArgRoundTrip(e: FuseEntry)
    ensures ParseFuseArg(FuseArg(e)) == Some(e)
  {
    var a := FuseArg(e);
    assert a[..6] == "-Ufuse" && a[6] == Digit(e.index) && a[7..10] == ":w:";
    assert a[10..|a| - 2] == e.value && a[|a| - 2..] == ":m";
  }

  lemma ArgShapes(e: FuseEntry, lock: string, path: string)
    ensures IsWriteArg(FuseArg(e)) && IsWriteArg(LockArg(lock)) && IsWriteArg(FlashArg(path))
    ensures IsLockArg(LockArg(lock)) && !IsLockArg(FuseArg(e))
    ensures ParseFuseArg(LockArg(lock)) == None
  {
    var f := FuseArg(e);
    assert f[2] == 'f';
    var l := LockArg(lock);
    assert l[..9] == "-Ulock:w:" && l[|l| - 2..] == ":m";
    assert l[2] == 'l';
  }

  lemma LockArgShape(a: string)
    requires IsLockArg(a)
    ensures IsWriteArg(a) && a != "-v"
  {
    assert a[1] == "-Ulock:w:"[1];
  }

  /** A directive or configuration word contains a space only if the value it embeds does. */
  lemma WordsSpaceFree(avrdudeDir: string, e: FuseEntry, lock: string, path: string)
    requires ' ' !in avrdudeDir && ' ' !in e.value && ' ' !in lock && ' ' !in path
    ensures ' ' !in ConfigArg(avrdudeDir)
    ensures ' ' !in FuseArg(e) && ' ' !in LockArg(lock) && ' ' !in FlashArg(path)
  {
    PathJoinFree(avrdudeDir, "avrdude.conf", ' ');
    QuoteFree(PathJoin(avrdudeDir, "avrdude.conf"));
    QuoteFree(path);
    ConcatFree("-Ufuse", [Digit(e.index)], ' ');
    ConcatFree("-Ufuse" + [Digit(e.index)], ":w:", ' ');
    ConcatFree("-Ufuse" + [Digit(e.index)] + ":w:", e.value, ' ');
    ConcatFree("-Ufuse" + [Digit(e.index)] + ":w:" + e.value, ":m", ' ');
    ConcatFree("-Ulock:w:", lock, ' ');
    ConcatFree("-Ulock:w:" + lock, ":m", ' ');
    ConcatFree("-Uflash:w:", Quote(path), ' ');
    ConcatFree("-Uflash:w:" + Quote(path), ":i", ' ');
  }

  lemma QuoteFree(s: string)
    requires ' ' !in s
    ensures ' ' !in Quote(s)
  {
    ConcatFree("\"", s, ' ');
    ConcatFree("\"" + s, "\"", ' ');
  }

  /** A word of a base invocation: neither a write directive nor `-v`. */
  predicate PlainWord(w: string) {
    !IsWriteArg(w) && w != "-v"
  }

  /** The fixed words of both invocations are plain and differ from `-e`, except `-e` itself.
      Stated once over literals so that the proofs using it stay cheap for the solver. */
  lemma FixedWordsPlain()
    ensures PlainWord("avrdude") && PlainWord("-p") && PlainWord("$BOARD_MCU") && PlainWord("-e")
    ensures PlainWord("-C") && PlainWord("-c") && PlainWord("$UPLOAD_PROTOCOL") && PlainWord("$UPLOAD_FLAGS")
    ensures "avrdude" != "-e" && "-p" != "-e" && "$BOARD_MCU" != "-e" && "-C" != "-e"
    ensures "-c" != "-e" && "$UPLOAD_PROTOCOL" != "-e" && "$UPLOAD_FLAGS" != "-e"
  {
    assert "avrdude"[0] == 'a';
    assert "-p"[1] == 'p';
    assert "$BOARD_MCU"[0] == '$';
    assert "-e"[1] == 'e';
    assert "-C"[1] == 'C';
    assert "-c"[1] == 'c';
    assert "$UPLOAD_PROTOCOL"[0] == '$';
    assert "$UPLOAD_FLAGS"[0] == '$';
  }

  /** The quoted configuration path is plain and is not `-e`. */
  lemma ConfigArgPlain(avrdudeDir: string)
    ensures PlainWord(ConfigArg(avrdudeDir)) && ConfigArg(avrdudeDir) != "-e"
  {
    var q := ConfigArg(avrdudeDir);
    assert q[0] == '"';
    assert "-v"[0] == '-' && "-e"[0] == '-';
  }

  /** Eight plain words other than `-e`, in a list, are plain and leave out `-e`.
      Stated over variables so that the proofs using it do not unfold the string literals. */
  lemma PlainList(w0: string, w1: string, w2: string, w3: string, w4: string, w5: string, w6: string, w7: string)
    requires PlainWord(w0) && PlainWord(w1) && PlainWord(w2) && PlainWord(w3)
    requires PlainWord(w4) && PlainWord(w5) && PlainWord(w6) && PlainWord(w7)
    requires w0 != "-e" && w1 != "-e" && w2 != "-e" && w3 != "-e"
    requires w4 != "-e" && w5 != "-e" && w6 != "-e" && w7 != "-e"
    ensures forall k :: 0 <= k < 8 ==> PlainWord([w0, w1, w2, w3, w4, w5, w6, w7][k])
    ensures "-e" !in [w0, w1, w2, w3, w4, w5, w6, w7]
    ensures forall k :: 0 <= k < 9 ==> PlainWord([w0, w1, w2, "-e", w3, w4, w5, w6, w7][k])
  {
    FixedWordsPlain();
  }

  /** No word of either base invocation is a write directive (so none reads as a
      fuse directive) or `-v`; `-e` is in the flash invocation only. */
  lemma BaseCmdShapes(avrdudeDir: string)
    ensures forall k :: 0 <= k < |FuseBaseCmd(avrdudeDir)| ==> PlainWord(FuseBaseCmd(avrdudeDir)[k])
    ensures forall k :: 0 <= k < |CommonCmd(avrdudeDir)| ==> PlainWord(CommonCmd(avrdudeDir)[k])
    ensures "-e" !in FuseBaseCmd(avrdudeDir) && "-e" in CommonCmd(avrdudeDir)
  {
    FixedWordsPlain();
    ConfigArgPlain(avrdudeDir);
    PlainList("avrdude", "-p", "$BOARD_MCU", "-C", ConfigArg(avrdudeDir), "-c", "$UPLOAD_PROTOCOL", "$UPLOAD_FLAGS");
    assert CommonCmd(avrdudeDir)[3] == "-e";
  }

  /** The fixed words of both invocations contain no space.
      Stated once over literals so that the proofs using it stay cheap for the solver. */
  lemma FixedWordsNoSpace()
    ensures ' ' !in "avrdude" && ' ' !in "-p" && ' ' !in "$BOARD_MCU" && ' ' !in "-e"
    ensures ' ' !in "-C" && ' ' !in "-c" && ' ' !in "$UPLOAD_PROTOCOL" && ' ' !in "$UPLOAD_FLAGS"
  {
  }

  /** Nine space-free words, in a list, contain no space.
      Stated over variables so that the proofs using it do not unfold the string literals. */
  lemma FreeList(w0: string, w1: string, w2: string, w3: string, w4: string, w5: string, w6: string, w7: string,
                 w8: string, c: char)
    requires c !in w0 && c !in w1 && c !in w2 && c !in w3 && c !in w4
    requires c !in w5 && c !in w6 && c !in w7 && c !in w8
    ensures NoneContains([w0, w1, w2, w3, w4, w5, w6, w7, w8], c)
    ensures NoneContains([w0, w1, w2, w4, w5, w6, w7, w8], c)
  {
  }

  /** Neither base invocation has a word with a space, given an avrdude directory without one. */
  lemma BaseCmdSpaceFree(avrdudeDir: string)
    requires ' ' !in avrdudeDir
    ensures NoneContains(FuseBaseCmd(avrdudeDir), ' ') && NoneContains(CommonCmd(avrdudeDir), ' ')
  {
    WordsSpaceFree(avrdudeDir, FuseEntry(0, ""), "", "");
    FixedWordsNoSpace();
    FreeList("avrdude", "-p", "$BOARD_MCU", "-e", "-C", ConfigArg(avrdudeDir), "-c", "$UPLOAD_PROTOCOL",
             "$UPLOAD_FLAGS", ' ');
  }
}
