/** What the NV store promises across operations: crash-safe writes, a backup ladder that really
    holds the image, and refinement of a flat 2 MiB array over runs with reboots. */
module NvTheorems {
  import opened Bytes
  import opened Md5
  import opened NvDisk
  import opened NvBoot
  import opened NvStore

  /** A running store's disk: nv_data.bin is a full image that the next boot would load first. */
  ghost predicate Current(e: Env, d: Disk) {
    RungOf(e, d) == Primary
  }

  ghost function Lose(d: Disk, files: set<File>): Disk {
    d - files
  }

  /** nv_data.bin after a pwrite was cut at k bytes. */
  function Torn(img: Image, offset: nat, data: seq<Byte>, k: nat): Image
    requires offset + |data| <= NVDATA_SIZE && k <= |data|
  {
    Overlay(img, offset, data[..k])
  }

  /* writeNVData. */

  /** A disk whose nv_data.bin is torn falls through to the next rung, exactly unless digests are
      off or the torn image happens to have the recorded digest. */
  lemma TornImageLoadsIff(e: Env, d: Disk, torn: Image)
    requires Current(e, d)
    ensures RungOf(e, d[NvData := torn]) == Primary <==> !Enabled(d) || e.digest(torn) == e.digest(d[NvData])
    ensures RungOf(e, d[NvData := torn]) != Primary ==> BootImage(e, d[NvData := torn]) == BootImage(e, Lose(d, {NvData}))
  {
  }

  lemma CrashedPWrite(d: Disk, c: Call, x: Disk)
    requires CrashState(d, [c], x)
    ensures x == d || exists k: nat :: k <= Length(c) && x == Apply(d, CutAt(c, k))
  {
    if x != d && CrashState(Apply(d, c), [c][1..], x) {
      assert [c][1..] == [];
      assert CutAt(c, Length(c)) == c by {
        if !c.Create? { assert c.data[..|c.data|] == c.data; }
      }
    }
  }

  /** With digests on, a crash anywhere in writeNVData boots to the old image, the new image, or what
      the remaining rungs hold; a torn image only if its digest collides with one of the other two. */
  lemma CrashedWriteIsNeverTorn(e: Env, d: Disk, offset: nat, data: seq<Byte>, x: Disk)
    requires Current(e, d) && Enabled(d) && offset + |data| <= NVDATA_SIZE
    requires CrashState(d, WriteCalls(e, d[NvData], offset, data, true), x)
    ensures var img := d[NvData];
            || BootImage(e, x) in {img, Torn(img, offset, data, |data|), BootImage(e, Lose(d, {NvData}))}
            || exists k: nat :: k < |data| && BootImage(e, x) == Torn(img, offset, data, k)
                                && e.digest(Torn(img, offset, data, k)) == e.digest(img)
  {
    var img := d[NvData];
    var w := PWrite(NvData, offset, data);
    var after: Image := Overlay(img, offset, data);
    assert data[..|data|] == data;
    CrashConcat(d, [w], UpdateMd5Calls(e, after, true), x);
    if CrashState(d, [w], x) {
      CrashedPWrite(d, w, x);
      if x != d {
        var k: nat :| k <= Length(w) && x == Apply(d, CutAt(w, k));
        assert x == d[NvData := Torn(img, offset, data, k)];
        TornImageLoadsIff(e, d, Torn(img, offset, data, k));
      }
    } else {
      var d1 := Apply(d, w);
      assert Run(d, [w]) == d1 by { assert [w][1..] == []; }
      CrashTouchesOnly(d1, UpdateMd5Calls(e, after, true), {NvDataMd5}, x);
      WriteFallsBack(e, d, after, x);
    }
  }

  lemma WriteFallsBack(e: Env, d: Disk, after: Image, x: Disk)
    requires Current(e, d) && SameExcept(d[NvData := after], x, {NvDataMd5})
    ensures BootImage(e, x) in {after, BootImage(e, Lose(d, {NvData}))}
  {
    var y := Lose(d, {NvData});
    forall f | f !in {NvData, NvDataMd5} ensures (f in x <==> f in y) && (f in x ==> x[f] == y[f]) {
      assert Content(x, f) == Content(d[NvData := after], f);
    }
    assert Content(x, NvData) == after;
  }

  /** The same with a valid full backup on disk: old image, new image or backup image. */
  lemma CrashedWriteWithBackup(e: Env, d: Disk, offset: nat, data: seq<Byte>, x: Disk)
    requires Current(e, d) && Enabled(d) && offset + |data| <= NVDATA_SIZE
    requires Loads(e, d, NvBackup, true, NVDATA_SIZE)
    requires forall k: nat :: k < |data| && e.digest(Torn(d[NvData], offset, data, k)) == e.digest(d[NvData]) ==>
                                Torn(d[NvData], offset, data, k) == d[NvData]
    requires CrashState(d, WriteCalls(e, d[NvData], offset, data, true), x)
    ensures BootImage(e, x) in {d[NvData], Overlay(d[NvData], offset, data), d[NvBackup]}
  {
    CrashedWriteIsNeverTorn(e, d, offset, data, x);
    assert data[..|data|] == data;
  }

  /** Digests are what makes this work: with them off, every cut of the pwrite is a crash state, and
      it boots to the torn image itself. */
  lemma TornWriteBootsWithoutDigests(e: Env, d: Disk, offset: nat, data: seq<Byte>, k: nat)
    requires Current(e, d) && !Enabled(d) && offset + |data| <= NVDATA_SIZE && k <= |data|
    ensures var x := d[NvData := Torn(d[NvData], offset, data, k)];
            CrashState(d, WriteCalls(e, d[NvData], offset, data, false), x) && BootImage(e, x) == Torn(d[NvData], offset, data, k)
  {
    var calls := WriteCalls(e, d[NvData], offset, data, false);
    assert k <= Length(calls[0]) && d[NvData := Torn(d[NvData], offset, data, k)] == Apply(d, CutAt(calls[0], k));
    TornImageLoadsIff(e, d, Torn(d[NvData], offset, data, k));
  }

  /** A write that completes leaves a store whose next boot loads the new image. */
  lemma CompletedWriteIsCurrent(e: Env, d: Disk, offset: nat, data: seq<Byte>)
    requires NvData in d && |d[NvData]| == NVDATA_SIZE && offset + |data| <= NVDATA_SIZE
    ensures var x := Run(d, WriteCalls(e, d[NvData], offset, data, Enabled(d)));
            Current(e, x) && x[NvData] == Overlay(d[NvData], offset, data) && Enabled(x)
  {
    var w := PWrite(NvData, offset, data);
    var after: Image := Overlay(d[NvData], offset, data);
    RunConcat(d, [w], UpdateMd5Calls(e, after, Enabled(d)));
    assert Run(d, [w]) == Apply(d, w) by { assert [w][1..] == []; }
    UpdateMd5Runs(e, Apply(d, w), after, Enabled(d));
  }

  /* backupNVData. */

  lemma CopiesRun(e: Env, d: Disk, img: Image, digest: seq<Byte>, full: bool)
    ensures var x := Run(d, CopyCalls(e, img, digest, full));
            var copied := d[NvBackup := img][NvBackupMd5 := digest];
            x == if full then copied[CoreBackup := img[..CORE_SIZE]][CoreBackupMd5 := e.digest(img[..CORE_SIZE])] else copied
  {
    var a, b := Put(NvBackup, img), Put(NvBackupMd5, digest);
    PutRuns(d, NvBackup, img);
    RunConcat(d, a, b);
    var d1 := d[NvBackup := img];
    PutRuns(d1, NvBackupMd5, digest);
    var d2 := d1[NvBackupMd5 := digest];
    if full {
      var core := img[..CORE_SIZE];
      var p, q := Put(CoreBackup, core), Put(CoreBackupMd5, e.digest(core));
      PutRuns(d2, CoreBackup, core);
      PutRuns(d2[CoreBackup := core], CoreBackupMd5, e.digest(core));
      RunConcat(d2, p, q);
      RunConcat(d, a + b, p + q);
    } else {
      assert CopyCalls(e, img, digest, false) == a + b;
    }
  }

  lemma FullBackupEnds(e: Env, d: Disk)
    requires Current(e, d)
    ensures var x := Run(d, BackupCalls(e, d, true));
            var img: Image := d[NvData];
            && Enabled(x) && Settled(e, img, x)
            && Loads(e, x, NvBackup, true, NVDATA_SIZE) && x[NvBackup] == img
            && Loads(e, x, CoreBackup, true, CORE_SIZE) && x[CoreBackup] == img[..CORE_SIZE]
  {
    hide Run, CopyCalls, UpdateMd5Calls;
    var img: Image := d[NvData];
    if Enabled(d) {
      CopiesRun(e, d, img, d[NvDataMd5], true);
    } else {
      var u := UpdateMd5Calls(e, img, false);
      UpdateMd5Runs(e, d, img, false);
      RunConcat(d, u, CopyCalls(e, img, e.digest(img), true));
      CopiesRun(e, Run(d, u), img, e.digest(img), true);
    }
  }

  /** A full backup of a current image is crash-safe wherever it is cut. */
  lemma CrashedBackupKeepsImage(e: Env, d: Disk, full: bool, x: Disk)
    requires Current(e, d) && CrashState(d, BackupCalls(e, d, full), x)
    ensures Current(e, x) && BootImage(e, x) == d[NvData]
  {
    var img: Image := d[NvData];
    if Enabled(d) {
      CrashCopying(e, d, img, d[NvDataMd5], full, x);
      CopyKeepsCurrent(e, d, x);
    } else {
      var u := UpdateMd5Calls(e, img, false);
      CrashConcat(d, u, CopyCalls(e, img, e.digest(img), full), x);
      if CrashState(d, u, x) {
        CrashUpdatingMd5(e, d, img, false, x);
        if SameExcept(d, x, {NvDataMd5}) {
          assert Content(x, NvData) == img && Content(x, State) == Content(d, State);
        }
      } else {
        UpdateMd5Runs(e, d, img, false);
        CrashCopying(e, Run(d, u), img, e.digest(img), full, x);
        CopyKeepsCurrent(e, Run(d, u), x);
      }
    }
  }

  lemma CopyKeepsCurrent(e: Env, d: Disk, x: Disk)
    requires Current(e, d) && SameExcept(d, x, {NvBackup, NvBackupMd5, CoreBackup, CoreBackupMd5})
    ensures Current(e, x) && BootImage(e, x) == d[NvData]
  {
    forall f | f in {NvData, NvDataMd5, State} ensures (f in x <==> f in d) && (f in x ==> x[f] == d[f]) {
      assert Content(x, f) == Content(d, f);
    }
  }

  /** Being current is exactly what that takes: with digests on, a full backup of an image whose digest
      file is stale (as core recovery leaves it) has a point where a crash loses every copy. */
  lemma FullBackupCrashSafeIff(e: Env, d: Disk)
    requires NvData in d && |d[NvData]| == NVDATA_SIZE && Enabled(d) && NvDataMd5 in d
    ensures (forall x :: CrashState(d, BackupCalls(e, d, true), x) ==> RungOf(e, x) != FromFirmware) <==> Current(e, d)
  {
    if Current(e, d) {
      forall x | CrashState(d, BackupCalls(e, d, true), x) ensures RungOf(e, x) != FromFirmware {
        CrashedBackupKeepsImage(e, d, true, x);
      }
    } else {
      var img: Image := d[NvData];
      var digest := d[NvDataMd5];
      var first := CopyCalls(e, img, digest, false);
      var core := img[..CORE_SIZE];
      var second := Put(CoreBackup, core) + Put(CoreBackupMd5, e.digest(core));
      CopiesRun(e, d, img, digest, false);
      var d1 := d[NvBackup := img][NvBackupMd5 := digest];
      var x := Apply(d1, second[0]);
      assert second[0] == CutAt(second[0], 0);
      assert CrashState(d1, second, x);
      CrashPrefix(d, first, second, x);
      assert BackupCalls(e, d, true) == first + second;
      assert RungOf(e, x) == FromFirmware;
    }
  }

  /** After a full backup of a current image, losing nv_data.bin costs nothing; losing the backup as
      well leaves the first megabyte padded with 0xFF. Either digest file may be lost along with them. */
  lemma BackupSurvivesLoss(e: Env, d: Disk, lost: set<File>)
    requires Current(e, d) && lost <= {NvData, NvDataMd5, NvBackup}
    ensures var x := Run(d, BackupCalls(e, d, true));
            && (NvBackup !in lost ==> BootImage(e, Lose(x, lost)) == d[NvData])
            && (NvData in lost && NvBackup in lost ==> BootImage(e, Lose(x, lost)) == Padded(d[NvData][..CORE_SIZE]))
  {
    FullBackupEnds(e, d);
  }

  /** The hypothesis is needed: with digests on, backupNVData copies whatever the digest file says, and
      the backup it makes is usable exactly when that file was current. */
  lemma BackupUsableIff(e: Env, d: Disk)
    requires NvData in d && |d[NvData]| == NVDATA_SIZE && Enabled(d) && NvDataMd5 in d
    ensures var x := Lose(Run(d, BackupCalls(e, d, true)), {NvData});
            RungOf(e, x) == FromBackup <==> d[NvDataMd5] == e.digest(d[NvData])
    ensures var x := Lose(Run(d, BackupCalls(e, d, true)), {NvData});
            d[NvDataMd5] != e.digest(d[NvData]) ==> BootImage(e, x) == Padded(d[NvData][..CORE_SIZE])
  {
    CopiesRun(e, d, d[NvData], d[NvDataMd5], true);
  }

  /** And it can fail: recovery from the core backup never writes the digest that loading reads, so
      with digests on the primary is current afterwards only if the old digest file already matched. */
  lemma CurrentAfterBootIff(e: Env, d: Disk)
    ensures var x := Run(d, BootCalls(e, d));
            Current(e, x) <==> RungOf(e, d) == FromCore && Enabled(d) ==>
                                 NvDataMd5 in d && d[NvDataMd5] == e.digest(BootImage(e, d))
  {
    BootEnds(e, d);
  }

  /** A disk on which only the core backup is left, valid, beside an empty primary digest file. */
  function OnlyCoreLeft(e: Env, core: seq<Byte>): Disk {
    map[State := [49], CoreBackup := core, CoreBackupMd5 := e.digest(core), NvDataMd5 := []]
  }

  /** And the store does get there: from that disk the boot recovers from the core backup and leaves the
      stale digest in place, so a full backup on the running store has a crash point that loses every copy. */
  lemma CoreRecoveryThenBackupLosesEverything(e: Env, core: seq<Byte>) returns (x: Disk)
    requires |core| == CORE_SIZE
    ensures var booted := Run(OnlyCoreLeft(e, core), BootCalls(e, OnlyCoreLeft(e, core)));
            && RungOf(e, OnlyCoreLeft(e, core)) == FromCore
            && NvData in booted && booted[NvData] == Padded(core) && Enabled(booted) && !Current(e, booted)
            && CrashState(booted, BackupCalls(e, booted, true), x) && RungOf(e, x) == FromFirmware
  {
    var d := OnlyCoreLeft(e, core);
    var booted := Run(d, BootCalls(e, d));
    BootEnds(e, d);
    CurrentAfterBootIff(e, d);
    assert Content(booted, State) == Content(d, State) && Content(booted, NvDataMd5) == Content(d, NvDataMd5);
    FullBackupCrashSafeIff(e, booted);
    x :| CrashState(booted, BackupCalls(e, booted, true), x) && RungOf(e, x) == FromFirmware;
  }

  /** Every file a completed boot changes, and to what, for each rung; all others stay. */
  lemma BootLeaves(e: Env, d: Disk)
    ensures var x := Run(d, BootCalls(e, d));
            var img := BootImage(e, d);
            var dig := e.digest(img);
            var on := State in d && d[State] != [48];
            match RungOf(e, d)
            case Primary => x == d
            case FromBackup => x == Marked(d[NvData := img][NvDataMd5 := dig], on)
            case FromCore => x == d[NvData := img][NvBackup := img][NvBackupMd5 := dig][StrayMd5 := dig]
            case FromFirmware =>
              var core := img[..1048576];
              x == Marked(d[NvData := img][NvDataMd5 := dig], on)
                     [NvBackup := img][NvBackupMd5 := dig][CoreBackup := core][CoreBackupMd5 := e.digest(core)]
  {
    var img := BootImage(e, d);
    match RungOf(e, d)
    case Primary =>
    case FromBackup => FirstStepsRun(e, d, img);
    case FromCore => CoreRecoveryRuns(e, d, d[CoreBackup]);
    case FromFirmware =>
      FirstStepsRun(e, d, img);
      var steps := Put(NvData, img) + UpdateMd5Calls(e, img, Enabled(d));
      RunConcat(d, steps, CopyCalls(e, img, e.digest(img), true));
      CopiesRun(e, Run(d, steps), img, e.digest(img), true);
  }

  /** The marker switched on, if digests were off. */
  function Marked(d: Disk, on: bool): (x: Disk)
    ensures on ==> x == d
    ensures !on ==> x == d[State := [49]]
  {
    if on then d else d[State := [49]]
  }

  lemma FirstStepsRun(e: Env, d: Disk, img: Image)
    ensures Run(d, Put(NvData, img) + UpdateMd5Calls(e, img, Enabled(d))) ==
            Marked(d[NvData := img][NvDataMd5 := e.digest(img)], Enabled(d))
  {
    RunConcat(d, Put(NvData, img), UpdateMd5Calls(e, img, Enabled(d)));
    PutRuns(d, NvData, img);
    UpdateMd5Runs(e, d[NvData := img], img, Enabled(d));
  }

  lemma FillRuns(d: Disk, core: seq<Byte>)
    requires |core| == CORE_SIZE && NvData in d && NvBackup in d && d[NvData] == d[NvBackup] == []
    ensures Run(d, FillCalls(core)) == d[NvData := Padded(core)][NvBackup := Padded(core)]
  {
    var w := FillCalls(core);
    var p, q := [w[0], w[1]], [w[2], w[3]];
    var d2 := d[NvData := core][NvBackup := core];
    assert [] + core == core;
    assert Apply(Apply(d, w[0]), w[1]) == d2;
    assert Apply(Apply(d2, w[2]), w[3]) == d2[NvData := Padded(core)][NvBackup := Padded(core)];
    assert w == p + q;
    hide Apply, FillCalls, Padded;
    RunTwo(d, w[0], w[1]);
    RunTwo(d2, w[2], w[3]);
    RunConcat(d, p, q);
  }

  lemma RunTwo(d: Disk, a: Call, b: Call)
    ensures Run(d, [a, b]) == Apply(Apply(d, a), b)
  {
    assert [a, b][1..] == [b] && [b][1..] == [];
    assert Run(Apply(d, a), [b]) == Run(Apply(Apply(d, a), b), []);
  }

  lemma CoreRecoveryRuns(e: Env, d: Disk, core: seq<Byte>)
    requires |core| == CORE_SIZE
    ensures var img := Padded(core);
            Run(d, CoreCalls(e, core)) ==
            d[NvData := img][NvBackup := img][NvBackupMd5 := e.digest(img)][StrayMd5 := e.digest(img)]
  {
    var img := Padded(core);
    var creates := [Create(NvData), Create(NvBackup)];
    var a, b := Put(NvBackupMd5, e.digest(img)), Put(StrayMd5, e.digest(img));
    var d1 := d[NvData := []][NvBackup := []];
    assert creates[1..] == [Create(NvBackup)] && creates[1..][1..] == [];
    assert Run(d, creates) == d1;
    FillRuns(d1, core);
    var d2 := Run(d1, FillCalls(core));
    PutRuns(d2, NvBackupMd5, e.digest(img));
    PutRuns(d2[NvBackupMd5 := e.digest(img)], StrayMd5, e.digest(img));
    hide Run, Put, FillCalls, Padded;
    RunConcat(d, creates, FillCalls(core));
    RunConcat(d, creates + FillCalls(core), a);
    RunConcat(d, creates + FillCalls(core) + a, b);
  }

  /** Where a completed boot leaves the images. */
  lemma BootEnds(e: Env, d: Disk)
    ensures var x := Run(d, BootCalls(e, d));
            var img := BootImage(e, d);
            && NvData in x && x[NvData] == img
            && (RungOf(e, d) in {FromBackup, FromFirmware} ==> Settled(e, img, x))
            && (RungOf(e, d) == FromCore ==>
                  SameExcept(d, x, {NvData, NvBackup, NvBackupMd5, StrayMd5}) && NvBackup in x && x[NvBackup] == img)
  {
    BootLeaves(e, d);
    hide Run, BootCalls;
  }

  /** Every file a completed backup changes, and to what; all others stay. */
  lemma BackupLeaves(e: Env, d: Disk, full: bool)
    requires NvData in d && |d[NvData]| == NVDATA_SIZE
    ensures var x := Run(d, BackupCalls(e, d, full));
            var img: Image := d[NvData];
            var on := State in d && d[State] != [48];
            if on && NvDataMd5 !in d then x == d
            else
              var dig := if on then d[NvDataMd5] else e.digest(img);
              var copied := (if on then d else d[NvDataMd5 := dig][State := [49]])[NvBackup := img][NvBackupMd5 := dig];
              var core := img[..1048576];
              x == if full then copied[CoreBackup := core][CoreBackupMd5 := e.digest(core)] else copied
  {
    hide Run, CopyCalls, UpdateMd5Calls;
    var img: Image := d[NvData];
    if !Enabled(d) {
      var u := UpdateMd5Calls(e, img, false);
      UpdateMd5Runs(e, d, img, false);
      RunConcat(d, u, CopyCalls(e, img, e.digest(img), full));
      CopiesRun(e, Run(d, u), img, e.digest(img), full);
    } else if NvDataMd5 in d {
      CopiesRun(e, d, img, d[NvDataMd5], full);
    } else {
      RunNothing(d);
    }
  }

  lemma RunNothing(d: Disk)
    ensures Run(d, []) == d
  {
  }

  /* Refinement of a flat array. */

  type Size = n: nat | n < 0x8000_0000

  datatype Op =
    | Store(offset: Offset, data: Payload)
    | Fetch(offset: Offset, size: Size)
    | Backup(full: bool)
    | Reboot

  datatype Answer = Answer(status: int, data: seq<Byte>)

  /** The reference: one flat image; only stores change it. */
  function FlatStep(img: Image, op: Op): (Image, Answer) {
    match op
    case Store(offset, data) =>
      if 0 <= offset && offset + |data| <= NVDATA_SIZE
      then (img[..offset] + data + img[offset + |data|..], Answer(0, []))
      else (img, Answer(AccessStatus(offset, |data|), []))
    case Fetch(offset, size) =>
      if 0 <= offset && offset + size <= NVDATA_SIZE
      then (img, Answer(0, img[offset..offset + size]))
      else (img, Answer(AccessStatus(offset, size), []))
    case _ => (img, Answer(0, []))
  }

  /** The disk after the same operation on the real store. A backup without a primary digest to copy ends
      the process; the next one boots. */
  function DiskStep(e: Env, d: Disk, op: Op): Disk
    requires NvData in d && |d[NvData]| == NVDATA_SIZE
  {
    match op
    case Store(offset, data) =>
      if AccessStatus(offset, |data|) == 0 && offset >= 0
      then Run(d, WriteCalls(e, d[NvData], offset, data, Enabled(d))) else d
    case Fetch(_, _) => d
    case Backup(full) =>
      if Enabled(d) && NvDataMd5 !in d then Run(d, BootCalls(e, d)) else Run(d, BackupCalls(e, d, full))
    case Reboot => Run(d, BootCalls(e, d))
  }

  function StoreAnswer(d: Disk, op: Op): Answer
    requires NvData in d && |d[NvData]| == NVDATA_SIZE
  {
    match op
    case Store(offset, data) => Answer(AccessStatus(offset, |data|), [])
    case Fetch(offset, size) =>
      Answer(AccessStatus(offset, size),
             if AccessStatus(offset, size) == 0 && offset >= 0 then Slice(d[NvData], offset, size) else [])
    case _ => Answer(0, [])
  }

  /** The store holds img, and so would the store after a reboot. Either the primary is current, or the
      image came from the core backup and has not been written since. */
  ghost predicate Represents(e: Env, d: Disk, img: Image) {
    && NvData in d && d[NvData] == img && BootImage(e, d) == img
    && (Current(e, d) || (Loads(e, d, CoreBackup, Enabled(d), CORE_SIZE) && Padded(d[CoreBackup]) == img))
  }

  /** A completed boot represents the image it loaded. */
  lemma BootRepresents(e: Env, d: Disk)
    ensures Represents(e, Run(d, BootCalls(e, d)), BootImage(e, d))
  {
    var x := Run(d, BootCalls(e, d));
    BootEnds(e, d);
    CompletedIsCrashState(d, BootCalls(e, d));
    CrashedBootLoadsSameImage(e, d, x);
    if RungOf(e, d) == FromCore {
      forall f | f in {State, CoreBackup, CoreBackupMd5} ensures (f in x <==> f in d) && (f in x ==> x[f] == d[f]) {
        assert Content(x, f) == Content(d, f);
      }
    }
  }

  lemma BackupStep(e: Env, d: Disk, img: Image, full: bool)
    requires Represents(e, d, img)
    ensures Represents(e, Run(d, BackupCalls(e, d, full)), img)
  {
    if !Enabled(d) {
      var u := UpdateMd5Calls(e, img, false);
      UpdateMd5Runs(e, d, img, false);
      RunConcat(d, u, CopyCalls(e, img, e.digest(img), full));
      CopiesRun(e, Run(d, u), img, e.digest(img), full);
    } else if NvDataMd5 in d {
      CopiesRun(e, d, img, d[NvDataMd5], full);
      if !Current(e, d) {
        assert img[..CORE_SIZE] == d[CoreBackup];
      }
    }
  }

  lemma StepRefines(e: Env, d: Disk, img: Image, op: Op)
    requires Represents(e, d, img)
    ensures Represents(e, DiskStep(e, d, op), FlatStep(img, op).0)
    ensures StoreAnswer(d, op) == FlatStep(img, op).1
  {
    match op
    case Store(offset, data) =>
      AcceptedIffInRange(offset, |data|);
      if 0 <= offset && offset + |data| <= NVDATA_SIZE {
        CompletedWriteIsCurrent(e, d, offset, data);
      }
    case Fetch(offset, size) => AcceptedIffInRange(offset, size);
    case Backup(full) =>
      BackupStep(e, d, img, full);
      BootRepresents(e, d);
    case Reboot => BootRepresents(e, d);
  }

  function FlatRun(img: Image, ops: seq<Op>): seq<Answer>
    decreases |ops|
  {
    if ops == [] then [] else [FlatStep(img, ops[0]).1] + FlatRun(FlatStep(img, ops[0]).0, ops[1..])
  }

  ghost predicate StoreRun(e: Env, d: Disk, ops: seq<Op>, answers: seq<Answer>)
    decreases |ops|
  {
    if ops == [] then answers == []
    else
      && NvData in d && |d[NvData]| == NVDATA_SIZE && answers != []
      && answers[0] == StoreAnswer(d, ops[0]) && StoreRun(e, DiskStep(e, d, ops[0]), ops[1..], answers[1..])
  }

  /** Over every run of writes, reads, backups and reboots, in range or not, the store answers
      exactly as a flat 2 MiB array that started as the image the first boot loaded. */
  lemma {:induction false} StoreRefinesFlatArray(e: Env, d: Disk, img: Image, ops: seq<Op>)
    requires Represents(e, d, img)
    ensures StoreRun(e, d, ops, FlatRun(img, ops))
    decreases |ops|
  {
    if ops != [] {
      StepRefines(e, d, img, ops[0]);
      StoreRefinesFlatArray(e, DiskStep(e, d, ops[0]), FlatStep(img, ops[0]).0, ops[1..]);
    }
  }

  /* The same for the store itself. */

  /** One operation on the running store. A reboot, and a backup that ends the process, give a new one. */
  method Perform(fs: AndroidFileSystem, op: Op) returns (next: AndroidFileSystem, answer: Answer)
    requires fs.Valid()
    modifies fs
    ensures next.Valid() && (next == fs || fresh(next)) && next.hash == fs.hash && next.blank == fs.blank
    ensures next.disk == DiskStep(EnvOf(fs.hash, fs.blank), old(fs.disk), op)
    ensures answer == StoreAnswer(old(fs.disk), op)
  {
    hide Digest, BootCalls, BackupCalls, WriteCalls, BootImage, FirstSound;
    next := fs;
    ghost var calls := fs.calls;
    match op
    case Store(offset, data) =>
      var status := fs.WriteNVData(offset, data);
      answer := Answer(status, []);
      if status == 0 {
        RunConcat(fs.start, calls, WriteCalls(EnvOf(fs.hash, fs.blank), old(fs.disk)[NvData], offset, data, old(fs.md5Enabled)));
      }
    case Fetch(offset, size) =>
      AcceptedIffInRange(offset, size);
      var status, data := fs.ReadNVData(offset, size);
      answer := Answer(status, data);
    case Backup(full) =>
      var panicked := fs.BackupNVData(full);
      RunConcat(fs.start, calls, BackupCalls(EnvOf(fs.hash, fs.blank), old(fs.disk), full));
      if panicked {
        NothingBackedUp(EnvOf(fs.hash, fs.blank), old(fs.disk), full);
        next := new AndroidFileSystem(fs.hash, fs.blank, fs.disk);
      }
      answer := Answer(0, []);
    case Reboot =>
      next := new AndroidFileSystem(fs.hash, fs.blank, fs.disk);
      answer := Answer(0, []);
  }

  lemma NothingBackedUp(e: Env, d: Disk, full: bool)
    requires NvData in d && |d[NvData]| == NVDATA_SIZE && Enabled(d) && NvDataMd5 !in d
    ensures Run(d, BackupCalls(e, d, full)) == d
  {
  }

  /** From any disk, the store that boots on it and is driven through any operations answers as a flat
      2 MiB array holding the image of the first sound copy. */
  method Drive(hash: Hash, blank: Image, efs: Disk, ops: seq<Op>) returns (ghost img: Image, answers: seq<Answer>)
    ensures FirstSound(EnvOf(hash, blank), efs, img) && answers == FlatRun(img, ops)
  {
    hide Digest, DiskStep, StoreAnswer, FlatStep, FirstSound, BootImage, BootCalls, Represents;
    ghost var e := EnvOf(hash, blank);
    var fs := new AndroidFileSystem(hash, blank, efs);
    img := fs.Contents();
    ghost var now := img;
    BootRepresents(e, efs);
    answers := [];
    var i := 0;
    assert ops[0..] == ops && [] + FlatRun(img, ops) == FlatRun(img, ops);
    while i < |ops|
      invariant 0 <= i <= |ops| && fresh(fs) && fs.Valid() && fs.hash == hash && fs.blank == blank
      invariant Represents(e, fs.disk, now) && answers + FlatRun(now, ops[i..]) == FlatRun(img, ops)
    {
      StepRefines(e, fs.disk, now, ops[i]);
      var answer;
      fs, answer := Perform(fs, ops[i]);
      assert ops[i..][0] == ops[i] && ops[i..][1..] == ops[i + 1..];
      AppendAssoc(answers, [answer], FlatRun(FlatStep(now, ops[i]).0, ops[i + 1..]));
      answers := answers + [answer];
      now := FlatStep(now, ops[i]).0;
      i := i + 1;
    }
    assert answers + [] == answers;
  }
}
