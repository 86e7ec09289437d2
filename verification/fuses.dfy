/**
  The fuse plan of the standard device family: the named fields of the
  board's `bootloader` map are laid out in a fixed nine-slot tuple whose
  position is the fuse number (slot 3 is reserved and always empty), and
  every non-empty slot, then the lock byte, becomes one avrdude `-U`
  directive of the "Setting fuses" command.
 */
module Fuses {
  import opened Text
  import opened Config
  import opened Avrdude

  const ReservedIndex: FuseIndex := 3

  /** The fixed fuse number of each named field. */
  function FieldIndex(name: string): Option<FuseIndex> {
    if name == "WDTCFG" then Some(0)
    else if name == "BODCFG" then Some(1)
    else if name == "OSCCFG" then Some(2)
    else if name == "TCD0CFG" then Some(4)
    else if name == "SYSCFG0" then Some(5)
    else if name == "SYSCFG1" then Some(6)
    else if name == "APPEND" then Some(7)
    else if name == "BOOTEND" then Some(8)
    else None
  }

  /** The `fuses` tuple of lines 96-106; a missing field reads as "". */
  function Slots(fuses: map<string, string>): (s: seq<string>)
    ensures |s| == 9
  {
    [ Get(fuses, "WDTCFG", ""),
      Get(fuses, "BODCFG", ""),
      Get(fuses, "OSCCFG", ""),
      "",  // reserved
      Get(fuses, "TCD0CFG", ""),
      Get(fuses, "SYSCFG0", ""),
      Get(fuses, "SYSCFG1", ""),
      Get(fuses, "APPEND", ""),
      Get(fuses, "BOOTEND", "") ]
  }

  /** Each named field lands in the slot of its fuse number; the reserved slot
      belongs to no field and is always empty. */
  lemma SlotsFollowFieldIndex(fuses: map<string, string>)
    ensures forall name :: FieldIndex(name).Some? ==> Slots(fuses)[FieldIndex(name).value] == Get(fuses, name, "")
    ensures forall name :: FieldIndex(name) != Some(ReservedIndex)
    ensures Slots(fuses)[ReservedIndex] == ""
  {
    var s := Slots(fuses);
    forall name | FieldIndex(name).Some?
      ensures s[FieldIndex(name).value] == Get(fuses, name, "")
    {
      if name == "WDTCFG" { assert s[0] == Get(fuses, "WDTCFG", ""); }
      else if name == "BODCFG" { assert s[1] == Get(fuses, "BODCFG", ""); }
      else if name == "OSCCFG" { assert s[2] == Get(fuses, "OSCCFG", ""); }
      else if name == "TCD0CFG" { assert s[4] == Get(fuses, "TCD0CFG", ""); }
      else if name == "SYSCFG0" { assert s[5] == Get(fuses, "SYSCFG0", ""); }
      else if name == "SYSCFG1" { assert s[6] == Get(fuses, "SYSCFG1", ""); }
      else if name == "APPEND" { assert s[7] == Get(fuses, "APPEND", ""); }
      else { assert s[8] == Get(fuses, "BOOTEND", ""); }
    }
    forall name
      ensures FieldIndex(name) != Some(ReservedIndex)
    {
    }
  }

  /** `"-Ulock:w:%s:m"` is written only for a non-empty `LOCKBIT`. */
  function LockOf(fuses: map<string, string>): (r: Option<string>)
    ensures r.Some? <==> "LOCKBIT" in fuses && fuses["LOCKBIT"] != ""
    ensures r.Some? ==> r.value == fuses["LOCKBIT"]
  {
    var lock := Get(fuses, "LOCKBIT", "");
    if lock != "" then Some(lock) else None
  }

  /** The writes of slots `from..8`, in slot order (the `if value:` filter of line 120). */
  function Entries(slots: seq<string>, from: nat): seq<FuseEntry>
    requires |slots| == 9 && from <= 9
    decreases 9 - from
  {
    if from == 9 then []
    else if slots[from] != "" then [FuseEntry(from, slots[from])] + Entries(slots, from + 1)
    else Entries(slots, from + 1)
  }

  /** Every write of `es` carries a non-empty slot's literal value, at that slot's number, from `from` on. */
  predicate SoundWrites(es: seq<FuseEntry>, slots: seq<string>, from: nat)
    requires |slots| == 9
  {
    forall k :: 0 <= k < |es| ==> from <= es[k].index && es[k].value == slots[es[k].index] && es[k].value != ""
  }

  predicate StrictlyAscending(es: seq<FuseEntry>) {
    forall k, l :: 0 <= k < l < |es| ==> es[k].index < es[l].index
  }

  /** Every non-empty slot from `from` on has a write in `es`. */
  predicate CoversSlots(es: seq<FuseEntry>, slots: seq<string>, from: nat)
    requires |slots| == 9
  {
    forall i :: from <= i < 9 && slots[i] != "" ==> exists k :: 0 <= k < |es| && es[k].index == i
  }

  /** Every write carries a non-empty slot's literal value, at that slot's number. */
  lemma {:induction false} EntriesSound(slots: seq<string>, from: nat)
    requires |slots| == 9 && from <= 9
    ensures SoundWrites(Entries(slots, from), slots, from)
    decreases 9 - from
  {
    if from < 9 {
      EntriesSound(slots, from + 1);
      var rest := Entries(slots, from + 1);
      if slots[from] != "" {
        var es := [FuseEntry(from, slots[from])] + rest;
        assert Entries(slots, from) == es;
        forall k | 0 <= k < |es|
          ensures from <= es[k].index && es[k].value == slots[es[k].index] && es[k].value != ""
        {
          if k > 0 {
            assert es[k] == rest[k - 1];
          }
        }
      } else {
        assert Entries(slots, from) == rest;
      }
    }
  }

  /** The writes are in strictly ascending fuse-number order. */
  lemma {:induction false} EntriesAscending(slots: seq<string>, from: nat)
    requires |slots| == 9 && from <= 9
    ensures StrictlyAscending(Entries(slots, from))
    decreases 9 - from
  {
    if from < 9 {
      EntriesAscending(slots, from + 1);
      EntriesSound(slots, from + 1);
      var rest := Entries(slots, from + 1);
      if slots[from] != "" {
        var es := [FuseEntry(from, slots[from])] + rest;
        assert Entries(slots, from) == es;
        forall k, l | 0 <= k < l < |es|
          ensures es[k].index < es[l].index
        {
          assert es[l] == rest[l - 1];
          assert from + 1 <= rest[l - 1].index;
          if k > 0 {
            assert es[k] == rest[k - 1];
          }
        }
      } else {
        assert Entries(slots, from) == rest;
      }
    }
  }

  /** Every non-empty slot is written. */
  lemma {:induction false} EntriesComplete(slots: seq<string>, from: nat)
    requires |slots| == 9 && from <= 9
    ensures CoversSlots(Entries(slots, from), slots, from)
    decreases 9 - from
  {
    if from < 9 {
      EntriesComplete(slots, from + 1);
      var rest := Entries(slots, from + 1);
      if slots[from] != "" {
        var es := [FuseEntry(from, slots[from])] + rest;
        assert Entries(slots, from) == es;
        forall i | from <= i < 9 && slots[i] != ""
          ensures exists k :: 0 <= k < |es| && es[k].index == i
        {
          if i == from {
            assert es[0].index == i;
          } else {
            var k :| 0 <= k < |rest| && rest[k].index == i;
            assert es[k + 1] == rest[k];
          }
        }
      } else {
        assert Entries(slots, from) == rest;
      }
    }
  }

  /** A fuse plan: the fuse writes in order, then an optional lock-byte write. */
  datatype FusePlan = FusePlan(writes: seq<FuseEntry>, lock: Option<string>)

  /** The plan of lines 90-108; an empty `bootloader` map is a configuration error. */
  function PlanOf(fuses: map<string, string>): (r: Result<FusePlan>)
    ensures r.Err? <==> |fuses| == 0
    ensures r.Err? ==> r.error == MissingBootloaderConfig
    ensures r.Ok? ==> r.value.lock == LockOf(fuses)
    ensures r.Ok? ==> forall k :: 0 <= k < |r.value.writes| ==> r.value.writes[k].index != ReservedIndex
  {
    if |fuses| == 0 then Err(MissingBootloaderConfig)
    else
      EntriesSound(Slots(fuses), 0);
      Ok(FusePlan(Entries(Slots(fuses), 0), LockOf(fuses)))
  }

  /** One fuse directive per write, in order. */
  function Render(es: seq<FuseEntry>): seq<string> {
    if es == [] then [] else [FuseArg(es[0])] + Render(es[1..])
  }

  lemma {:induction false} RenderPointwise(es: seq<FuseEntry>)
    ensures |Render(es)| == |es|
    ensures forall k :: 0 <= k < |es| ==> Render(es)[k] == FuseArg(es[k])
  {
    if es != [] {
      RenderPointwise(es[1..]);
    }
  }

  /** The `-U` directives of a plan: the fuse writes, then the lock write. */
  function WriteArgs(p: FusePlan): seq<string> {
    Render(p.writes) + (if p.lock.Some? then [LockArg(p.lock.value)] else [])
  }

  /** One step of the walk: slot `idx` contributes its directive, if non-empty, ahead of the later slots'. */
  lemma RenderEntriesStep(slots: seq<string>, idx: nat)
    requires |slots| == 9 && idx < 9
    ensures Render(Entries(slots, idx))
            == (if slots[idx] != "" then [FuseArg(FuseEntry(idx, slots[idx]))] else []) + Render(Entries(slots, idx + 1))
  {
    var rest := Entries(slots, idx + 1);
    if slots[idx] != "" {
      var es := [FuseEntry(idx, slots[idx])] + rest;
      assert es[1..] == rest;
    }
  }

  /** The loop of lines 119-124, walking the tuple by index: it emits exactly
      the directives of the plan. */
  method AssembleWriteArgs(slots: seq<string>, lock: string) returns (args: seq<string>)
    requires |slots| == 9
    ensures args == WriteArgs(FusePlan(Entries(slots, 0), if lock != "" then Some(lock) else None))
  {
    args := [];
    var idx := 0;
    while idx < |slots|
      invariant 0 <= idx <= 9
      invariant args + Render(Entries(slots, idx)) == Render(Entries(slots, 0))
    {
      RenderEntriesStep(slots, idx);
      var emitted: seq<string> := if slots[idx] != "" then [FuseArg(FuseEntry(idx, slots[idx]))] else [];
      assert args + Render(Entries(slots, idx)) == (args + emitted) + Render(Entries(slots, idx + 1));
      args := args + emitted;
      idx := idx + 1;
    }
    if lock != "" {
      args := args + [LockArg(lock)];
    }
  }

  /** `fuses_cmd` (lines 110-124): base invocation, `-v` when verbose, then the writes. */
  function FuseArgv(avrdudeDir: string, fuses: map<string, string>, verbose: bool): (r: Result<seq<string>>)
    ensures r.Err? <==> |fuses| == 0
  {
    match PlanOf(fuses)
    case Err(e) => Err(e)
    case Ok(p) => Ok(FuseBaseCmd(avrdudeDir) + (if verbose then ["-v"] else []) + WriteArgs(p))
  }

  /** The layout of a fuse command: `nBase` plain words, `-v` when verbose,
      one directive per write, and the lock directive last when there is one. */
  predicate Shaped(argv: seq<string>, nBase: nat, verbose: bool, writes: seq<FuseEntry>, lock: Option<string>) {
    var head := nBase + (if verbose then 1 else 0);
    && |argv| == head + |writes| + (if lock.Some? then 1 else 0)
    && (forall k :: 0 <= k < nBase ==> PlainWord(argv[k]))
    && (verbose ==> argv[nBase] == "-v")
    && (forall k :: 0 <= k < |writes| ==> argv[head + k] == FuseArg(writes[k]))
    && (lock.Some? ==> argv[|argv| - 1] == LockArg(lock.value))
  }

  lemma PrefixOfConcat(base: seq<string>, v: seq<string>, w: seq<string>)
    ensures (base + v + w)[..|base|] == base
  {
  }

  /** Any plain base, followed by `-v` when verbose and a plan's directives, is shaped. */
  lemma ConcatShaped(base: seq<string>, verbose: bool, writes: seq<FuseEntry>, lock: Option<string>)
    requires forall k :: 0 <= k < |base| ==> PlainWord(base[k])
    ensures Shaped(base + (if verbose then ["-v"] else []) + WriteArgs(FusePlan(writes, lock)),
                   |base|, verbose, writes, lock)
  {
    var v: seq<string> := if verbose then ["-v"] else [];
    var rendered := Render(writes);
    RenderPointwise(writes);
    var l: seq<string> := if lock.Some? then [LockArg(lock.value)] else [];
    var argv := base + v + WriteArgs(FusePlan(writes, lock));
    assert argv == base + v + rendered + l;
    var head := |base| + |v|;
    forall k | 0 <= k < |base|
      ensures PlainWord(argv[k])
    {
      assert argv[k] == base[k];
    }
    forall k | 0 <= k < |writes|
      ensures argv[head + k] == FuseArg(writes[k])
    {
      assert argv[head + k] == rendered[k];
    }
  }

  lemma FuseArgvShaped(avrdudeDir: string, fuses: map<string, string>, verbose: bool)
    requires |fuses| > 0
    ensures Shaped(FuseArgv(avrdudeDir, fuses, verbose).value, |FuseBaseCmd(avrdudeDir)|, verbose,
                   Entries(Slots(fuses), 0), LockOf(fuses))
    ensures FuseArgv(avrdudeDir, fuses, verbose).value[..|FuseBaseCmd(avrdudeDir)|] == FuseBaseCmd(avrdudeDir)
  {
    BaseCmdShapes(avrdudeDir);
    var v: seq<string> := if verbose then ["-v"] else [];
    var plan := FusePlan(Entries(Slots(fuses), 0), LockOf(fuses));
    ConcatShaped(FuseBaseCmd(avrdudeDir), verbose, plan.writes, plan.lock);
    PrefixOfConcat(FuseBaseCmd(avrdudeDir), v, WriteArgs(plan));
  }

  /** In a shaped command exactly the write positions read as fuse directives, each as its write. */
  lemma ShapedParses(argv: seq<string>, nBase: nat, verbose: bool, writes: seq<FuseEntry>, lock: Option<string>)
    requires Shaped(argv, nBase, verbose, writes, lock)
    ensures forall k :: 0 <= k < |argv| && !(nBase + (if verbose then 1 else 0) <= k < nBase + (if verbose then 1 else 0) + |writes|)
              ==> ParseFuseArg(argv[k]) == None
    ensures forall k :: 0 <= k < |writes| ==> ParseFuseArg(argv[nBase + (if verbose then 1 else 0) + k]) == Some(writes[k])
  {
    var head := nBase + (if verbose then 1 else 0);
    forall k | 0 <= k < |writes|
      ensures ParseFuseArg(argv[head + k]) == Some(writes[k])
    {
      ParseFuseArgRoundTrip(writes[k]);
    }
    forall k | 0 <= k < |argv| && !(head <= k < head + |writes|)
      ensures ParseFuseArg(argv[k]) == None
    {
      if k >= head + |writes| {
        ArgShapes(FuseEntry(0, ""), lock.value, "");
      } else if k == nBase {
        assert argv[k] == "-v";
      } else {
        assert PlainWord(argv[k]);
      }
    }
  }

  /** In a shaped command the only lock directive is the last word, present exactly with a lock. */
  lemma ShapedLock(argv: seq<string>, nBase: nat, verbose: bool, writes: seq<FuseEntry>, lock: Option<string>)
    requires Shaped(argv, nBase, verbose, writes, lock)
    ensures forall k :: 0 <= k < |argv| && IsLockArg(argv[k]) ==> lock.Some? && k == |argv| - 1
    ensures lock.Some? ==> IsLockArg(argv[|argv| - 1])
  {
    var head := nBase + (if verbose then 1 else 0);
    forall k | 0 <= k < |argv| && IsLockArg(argv[k])
      ensures lock.Some? && k == |argv| - 1
    {
      LockArgShape(argv[k]);
      if head <= k < head + |writes| {
        ArgShapes(writes[k - head], "", "");
      }
    }
    if lock.Some? {
      ArgShapes(FuseEntry(0, ""), lock.value, "");
    }
  }

  /** In a shaped command `-v` is there exactly when verbose, before every write directive. */
  lemma ShapedVerbose(argv: seq<string>, nBase: nat, verbose: bool, writes: seq<FuseEntry>, lock: Option<string>)
    requires Shaped(argv, nBase, verbose, writes, lock)
    ensures ("-v" in argv) <==> verbose
    ensures forall i, j :: 0 <= i < |argv| && 0 <= j < |argv| && argv[i] == "-v" && IsWriteArg(argv[j]) ==> i < j
    ensures forall k :: nBase <= k < |argv| ==> argv[k] != "-e"
  {
    var head := nBase + (if verbose then 1 else 0);
    forall k | head <= k < |argv|
      ensures IsWriteArg(argv[k])
    {
      if k < head + |writes| {
        ArgShapes(writes[k - head], "", "");
      } else {
        ArgShapes(FuseEntry(0, ""), lock.value, "");
      }
    }
    assert forall k :: head <= k < |argv| ==> argv[k] != "-v" && argv[k] != "-e";
    assert forall k :: 0 <= k < nBase ==> PlainWord(argv[k]);
    if verbose {
      assert argv[nBase] == "-v";
    }
  }

  /** Every fuse directive of `argv` writes a non-empty slot's literal value at that slot's number. */
  predicate DirectivesMatchSlots(argv: seq<string>, slots: seq<string>)
    requires |slots| == 9
  {
    forall k :: 0 <= k < |argv| && ParseFuseArg(argv[k]).Some? ==>
      slots[ParseFuseArg(argv[k]).value.index] == ParseFuseArg(argv[k]).value.value
      && ParseFuseArg(argv[k]).value.value != ""
  }

  /** Every non-empty slot has a fuse directive in `argv` writing its value. */
  predicate SlotsAllWritten(argv: seq<string>, slots: seq<string>)
    requires |slots| == 9
  {
    forall i: FuseIndex :: slots[i] != "" ==>
      exists k :: 0 <= k < |argv| && ParseFuseArg(argv[k]) == Some(FuseEntry(i, slots[i]))
  }

  /** The fuse directives of `argv` name strictly ascending fuse numbers. */
  predicate DirectivesAscending(argv: seq<string>) {
    forall k, l :: 0 <= k < l < |argv| && ParseFuseArg(argv[k]).Some? && ParseFuseArg(argv[l]).Some? ==>
      ParseFuseArg(argv[k]).value.index < ParseFuseArg(argv[l]).value.index
  }

  /** In a shaped command a word reads as a fuse directive only at a write position, as that write. */
  lemma ShapedDirectives(argv: seq<string>, nBase: nat, verbose: bool, writes: seq<FuseEntry>, lock: Option<string>)
    requires Shaped(argv, nBase, verbose, writes, lock)
    ensures forall k :: 0 <= k < |argv| && ParseFuseArg(argv[k]).Some? ==>
              nBase + (if verbose then 1 else 0) <= k < nBase + (if verbose then 1 else 0) + |writes|
              && ParseFuseArg(argv[k]) == Some(writes[k - nBase - (if verbose then 1 else 0)])
  {
    ShapedParses(argv, nBase, verbose, writes, lock);
    var head := nBase + (if verbose then 1 else 0);
    forall k | 0 <= k < |argv| && ParseFuseArg(argv[k]).Some?
      ensures head <= k < head + |writes| && ParseFuseArg(argv[k]) == Some(writes[k - head])
    {
      assert ParseFuseArg(argv[head + (k - head)]) == Some(writes[k - head]);
    }
  }

  lemma ShapedSound(argv: seq<string>, nBase: nat, verbose: bool, writes: seq<FuseEntry>, lock: Option<string>,
                    slots: seq<string>)
    requires |slots| == 9
    requires Shaped(argv, nBase, verbose, writes, lock)
    requires SoundWrites(writes, slots, 0)
    ensures DirectivesMatchSlots(argv, slots)
  {
    ShapedDirectives(argv, nBase, verbose, writes, lock);
  }

  lemma ShapedComplete(argv: seq<string>, nBase: nat, verbose: bool, writes: seq<FuseEntry>, lock: Option<string>,
                       slots: seq<string>)
    requires |slots| == 9
    requires Shaped(argv, nBase, verbose, writes, lock)
    requires SoundWrites(writes, slots, 0) && CoversSlots(writes, slots, 0)
    ensures SlotsAllWritten(argv, slots)
  {
    var head := nBase + (if verbose then 1 else 0);
    ShapedParses(argv, nBase, verbose, writes, lock);
    forall i: FuseIndex | slots[i] != ""
      ensures exists k :: 0 <= k < |argv| && ParseFuseArg(argv[k]) == Some(FuseEntry(i, slots[i]))
    {
      var j :| 0 <= j < |writes| && writes[j].index == i;
      assert ParseFuseArg(argv[head + j]) == Some(FuseEntry(i, slots[i]));
    }
  }

  lemma ShapedAscending(argv: seq<string>, nBase: nat, verbose: bool, writes: seq<FuseEntry>, lock: Option<string>)
    requires Shaped(argv, nBase, verbose, writes, lock)
    requires StrictlyAscending(writes)
    ensures DirectivesAscending(argv)
  {
    ShapedDirectives(argv, nBase, verbose, writes, lock);
  }

  /** In a shaped command whose writes are sound, ascending and complete for
      `slots`, the fuse directives are exactly the writes of `slots`. */
  lemma ShapedMatchesSlots(argv: seq<string>, nBase: nat, verbose: bool, writes: seq<FuseEntry>, lock: Option<string>,
                           slots: seq<string>)
    requires |slots| == 9
    requires Shaped(argv, nBase, verbose, writes, lock)
    requires SoundWrites(writes, slots, 0) && StrictlyAscending(writes) && CoversSlots(writes, slots, 0)
    ensures DirectivesMatchSlots(argv, slots)
    ensures SlotsAllWritten(argv, slots)
    ensures DirectivesAscending(argv)
  {
    ShapedSound(argv, nBase, verbose, writes, lock, slots);
    ShapedComplete(argv, nBase, verbose, writes, lock, slots);
    ShapedAscending(argv, nBase, verbose, writes, lock);
  }

  /** Every fuse directive of the command writes a non-empty slot's literal
      value to that slot's fuse number; every non-empty slot is written; and
      the fuse numbers strictly ascend, so each slot is written exactly once. */
  lemma FuseWritesMatchSlots(avrdudeDir: string, fuses: map<string, string>, verbose: bool)
    requires |fuses| > 0
    ensures DirectivesMatchSlots(FuseArgv(avrdudeDir, fuses, verbose).value, Slots(fuses))
    ensures SlotsAllWritten(FuseArgv(avrdudeDir, fuses, verbose).value, Slots(fuses))
    ensures DirectivesAscending(FuseArgv(avrdudeDir, fuses, verbose).value)
  {
    var slots := Slots(fuses);
    FuseArgvShaped(avrdudeDir, fuses, verbose);
    EntriesSound(slots, 0);
    EntriesAscending(slots, 0);
    EntriesComplete(slots, 0);
    ShapedMatchesSlots(FuseArgv(avrdudeDir, fuses, verbose).value, |FuseBaseCmd(avrdudeDir)|, verbose,
                       Entries(slots, 0), LockOf(fuses), slots);
  }

  /** Fuse number 3 is never written, whatever the board. */
  lemma ReservedFuseNeverWritten(avrdudeDir: string, fuses: map<string, string>, verbose: bool)
    requires |fuses| > 0
    ensures NeverTargets(FuseArgv(avrdudeDir, fuses, verbose).value, ReservedIndex)
  {
    FuseWritesMatchSlots(avrdudeDir, fuses, verbose);
    assert Slots(fuses)[ReservedIndex] == "";
    MatchingSkipsEmpty(FuseArgv(avrdudeDir, fuses, verbose).value, Slots(fuses), ReservedIndex);
  }

  /** No fuse directive of `argv` writes fuse `i`. */
  predicate NeverTargets(argv: seq<string>, i: FuseIndex) {
    forall k :: 0 <= k < |argv| && ParseFuseArg(argv[k]).Some? ==> ParseFuseArg(argv[k]).value.index != i
  }

  /** Directives that match the slots never target an empty slot. */
  lemma MatchingSkipsEmpty(argv: seq<string>, slots: seq<string>, i: FuseIndex)
    requires |slots| == 9 && DirectivesMatchSlots(argv, slots) && slots[i] == ""
    ensures NeverTargets(argv, i)
  {
  }

  /** A lock directive appears exactly when `LOCKBIT` is non-empty, and then it
      is the last word of the command, writing that value. */
  lemma LockWrittenLast(avrdudeDir: string, fuses: map<string, string>, verbose: bool)
    requires |fuses| > 0
    ensures (exists k :: 0 <= k < |FuseArgv(avrdudeDir, fuses, verbose).value|
                         && IsLockArg(FuseArgv(avrdudeDir, fuses, verbose).value[k]))
            <==> Get(fuses, "LOCKBIT", "") != ""
    ensures forall k :: 0 <= k < |FuseArgv(avrdudeDir, fuses, verbose).value|
                        && IsLockArg(FuseArgv(avrdudeDir, fuses, verbose).value[k])
                        ==> k == |FuseArgv(avrdudeDir, fuses, verbose).value| - 1
    ensures Get(fuses, "LOCKBIT", "") != "" ==>
              FuseArgv(avrdudeDir, fuses, verbose).value[|FuseArgv(avrdudeDir, fuses, verbose).value| - 1]
              == LockArg(Get(fuses, "LOCKBIT", ""))
  {
    var argv := FuseArgv(avrdudeDir, fuses, verbose).value;
    FuseArgvShaped(avrdudeDir, fuses, verbose);
    ShapedLock(argv, |FuseBaseCmd(avrdudeDir)|, verbose, Entries(Slots(fuses), 0), LockOf(fuses));
  }

  /** The verbosity and erase facts for any plain base without `-e`. */
  lemma ConcatVerbose(base: seq<string>, verbose: bool, writes: seq<FuseEntry>, lock: Option<string>)
    requires forall k :: 0 <= k < |base| ==> PlainWord(base[k])
    requires "-e" !in base
    ensures var argv := base + (if verbose then ["-v"] else []) + WriteArgs(FusePlan(writes, lock));
            && (("-v" in argv) <==> verbose)
            && (forall i, j :: 0 <= i < |argv| && 0 <= j < |argv| && argv[i] == "-v" && IsWriteArg(argv[j]) ==> i < j)
            && "-e" !in argv
  {
    var argv := base + (if verbose then ["-v"] else []) + WriteArgs(FusePlan(writes, lock));
    ConcatShaped(base, verbose, writes, lock);
    ShapedVerbose(argv, |base|, verbose, writes, lock);
    assert forall k :: 0 <= k < |base| ==> argv[k] == base[k];
  }

  /** `-v` appears exactly when verbose, before every write directive; the fuse
      command never erases the chip (`-e`). */
  lemma VerboseBeforeWritesNoErase(avrdudeDir: string, fuses: map<string, string>, verbose: bool)
    requires |fuses| > 0
    ensures ("-v" in FuseArgv(avrdudeDir, fuses, verbose).value) <==> verbose
    ensures forall i, j :: 0 <= i < |FuseArgv(avrdudeDir, fuses, verbose).value|
                           && 0 <= j < |FuseArgv(avrdudeDir, fuses, verbose).value|
                           && FuseArgv(avrdudeDir, fuses, verbose).value[i] == "-v"
                           && IsWriteArg(FuseArgv(avrdudeDir, fuses, verbose).value[j])
                           ==> i < j
    ensures "-e" !in FuseArgv(avrdudeDir, fuses, verbose).value
  {
    BaseCmdShapes(avrdudeDir);
    ConcatVerbose(FuseBaseCmd(avrdudeDir), verbose, Entries(Slots(fuses), 0), LockOf(fuses));
  }

  /** No slot of the tuple contains `c` when no `bootloader` value does. */
  lemma SlotsFree(fuses: map<string, string>, c: char)
    requires NoValueContains(fuses, c)
    ensures NoneContains(Slots(fuses), c)
  {
    GetFree(fuses, "WDTCFG", "", c);
    GetFree(fuses, "BODCFG", "", c);
    GetFree(fuses, "OSCCFG", "", c);
    GetFree(fuses, "TCD0CFG", "", c);
    GetFree(fuses, "SYSCFG0", "", c);
    GetFree(fuses, "SYSCFG1", "", c);
    GetFree(fuses, "APPEND", "", c);
    GetFree(fuses, "BOOTEND", "", c);
    FreeList(Get(fuses, "WDTCFG", ""), Get(fuses, "BODCFG", ""), Get(fuses, "OSCCFG", ""), "",
             Get(fuses, "TCD0CFG", ""), Get(fuses, "SYSCFG0", ""), Get(fuses, "SYSCFG1", ""),
             Get(fuses, "APPEND", ""), Get(fuses, "BOOTEND", ""), c);
  }

  /** A space-free base followed by directives of space-free values has no word with a space. */
  lemma ConcatSpaceFree(base: seq<string>, verbose: bool, writes: seq<FuseEntry>, lock: Option<string>)
    requires NoneContains(base, ' ')
    requires forall k :: 0 <= k < |writes| ==> ' ' !in writes[k].value
    requires lock.Some? ==> ' ' !in lock.value
    ensures NoneContains(base + (if verbose then ["-v"] else []) + WriteArgs(FusePlan(writes, lock)), ' ')
  {
    var v: seq<string> := if verbose then ["-v"] else [];
    var rendered := Render(writes);
    RenderPointwise(writes);
    var l: seq<string> := if lock.Some? then [LockArg(lock.value)] else [];
    var argv := base + v + WriteArgs(FusePlan(writes, lock));
    assert argv == base + v + rendered + l;
    var head := |base| + |v|;
    forall k | 0 <= k < |argv|
      ensures ' ' !in argv[k]
    {
      if k < |base| {
        assert argv[k] == base[k];
      } else if k < head {
        assert argv[k] == "-v";
        assert "-v"[0] != ' ' && "-v"[1] != ' ';
      } else if k < head + |writes| {
        assert argv[k] == rendered[k - head];
        WordsSpaceFree("", writes[k - head], "", "");
      } else {
        WordsSpaceFree("", FuseEntry(0, ""), lock.value, "");
      }
    }
  }

  /** A fuse command has no word with a space when neither the avrdude
      directory nor any `bootloader` value has one. */
  lemma FuseArgvSpaceFree(avrdudeDir: string, fuses: map<string, string>, verbose: bool)
    requires |fuses| > 0 && ' ' !in avrdudeDir && NoValueContains(fuses, ' ')
    ensures NoneContains(FuseArgv(avrdudeDir, fuses, verbose).value, ' ')
  {
    var slots := Slots(fuses);
    var writes := Entries(slots, 0);
    SlotsFree(fuses, ' ');
    EntriesSound(slots, 0);
    assert forall k :: 0 <= k < |writes| ==> writes[k].value == slots[writes[k].index];
    GetFree(fuses, "LOCKBIT", "", ' ');
    BaseCmdSpaceFree(avrdudeDir);
    ConcatSpaceFree(FuseBaseCmd(avrdudeDir), verbose, writes, LockOf(fuses));
  }

  /** A standard board without a `bootloader` map gets no fuse command. */
  lemma EmptyConfigRejected(avrdudeDir: string, verbose: bool)
    ensures FuseArgv(avrdudeDir, map[], verbose) == Err(MissingBootloaderConfig)
  {
  }
}
