/** The recovery ladder of the NV store's constructor: which image a disk boots to, which calls the
    boot makes, and the proof that a boot cut anywhere changes neither. */
module NvBoot {
  import opened Bytes
  import opened NvDisk

  const NVDATA_SIZE: nat := 2 * 1024 * 1024
  const CORE_SIZE: nat := 1024 * 1024

  type Image = s: seq<Byte> | |s| == NVDATA_SIZE witness Fill(0xFF, NVDATA_SIZE)

  type Digest32 = s: seq<Byte> | |s| == 32 witness Fill(48, 32)

  /** What the store is built over: a digest function (any one: the ladder only compares its values),
      and the default image inside the firmware. */
  datatype Env = Env(digest: seq<Byte> -> Digest32, blank: Image)

  /** The four ways a boot can find its image, in the order they are tried. */
  datatype Rung = Primary | FromBackup | FromCore | FromFirmware

  /** Digests count unless the marker is missing or is exactly "0". */
  predicate Enabled(d: Disk) {
    State in d && d[State] != [48]
  }

  predicate Loads(e: Env, d: Disk, f: File, md5Enabled: bool, size: nat)
    requires f in {NvData, NvBackup, CoreBackup}
  {
    && f in d && |d[f]| == size
    && (md5Enabled ==> Md5Of(f) in d && d[Md5Of(f)] == e.digest(d[f]))
  }

  function RungOf(e: Env, d: Disk): Rung {
    if Loads(e, d, NvData, Enabled(d), NVDATA_SIZE) then Primary
    else if Loads(e, d, NvBackup, Enabled(d), NVDATA_SIZE) then FromBackup
    else if Loads(e, d, CoreBackup, Enabled(d), CORE_SIZE) then FromCore
    else FromFirmware
  }

  const PADDING: seq<Byte> := Fill(0xFF, NVDATA_SIZE - CORE_SIZE)

  /** A core image completed with 0xFF to the full size. */
  function Padded(core: seq<Byte>): (img: Image)
    requires |core| == CORE_SIZE
  {
    core + PADDING
  }

  /** The NV image a boot from this disk works on. */
  function BootImage(e: Env, d: Disk): Image {
    match RungOf(e, d)
    case Primary => d[NvData]
    case FromBackup => d[NvBackup]
    case FromCore => Padded(d[CoreBackup])
    case FromFirmware => e.blank
  }

  /** A file the ladder may take, in bytes: it is there with the right size, and either digests do not
      count (no marker, or exactly the character 0 in it) or its digest file holds its digest. */
  ghost predicate Sound(e: Env, d: Disk, f: File, md5: File, size: nat) {
    && f in d && |d[f]| == size
    && (State !in d || d[State] == [48] || (md5 in d && d[md5] == e.digest(d[f])))
  }

  /** The image is the first sound one of nv_data.bin, .nv_data.bak and .nv_core.bak, the last completed
      with 0xFF, and the firmware's default if none is. */
  ghost predicate FirstSound(e: Env, d: Disk, img: Image) {
    if Sound(e, d, NvData, NvDataMd5, 2097152) then img == d[NvData]
    else if Sound(e, d, NvBackup, NvBackupMd5, 2097152) then img == d[NvBackup]
    else if Sound(e, d, CoreBackup, CoreBackupMd5, 1048576) then
      img[..1048576] == d[CoreBackup] && forall i :: 1048576 <= i < 2097152 ==> img[i] == 0xFF
    else img == e.blank
  }

  /** The ladder in bytes, for every disk; in particular a core backup is used exactly if it is sound and
      no full image is. */
  lemma BootTakesFirstSound(e: Env, d: Disk)
    ensures FirstSound(e, d, BootImage(e, d))
    ensures RungOf(e, d) == Primary <==> Sound(e, d, NvData, NvDataMd5, 2097152)
    ensures RungOf(e, d) == FromBackup <==>
              !Sound(e, d, NvData, NvDataMd5, 2097152) && Sound(e, d, NvBackup, NvBackupMd5, 2097152)
    ensures RungOf(e, d) == FromCore <==>
              && !Sound(e, d, NvData, NvDataMd5, 2097152) && !Sound(e, d, NvBackup, NvBackupMd5, 2097152)
              && Sound(e, d, CoreBackup, CoreBackupMd5, 1048576)
  {
  }

  /** On a disk with a core backup of the right size and no sound full image: it boots the core backup
      exactly if the marker is missing or the character 0, or the core digest file holds the core's
      digest; otherwise it boots the default. */
  lemma CoreUsedIff(e: Env, d: Disk)
    requires CoreBackup in d && |d[CoreBackup]| == 1048576
    requires !Sound(e, d, NvData, NvDataMd5, 2097152) && !Sound(e, d, NvBackup, NvBackupMd5, 2097152)
    ensures RungOf(e, d) == FromCore <==>
              State !in d || d[State] == [48] || (CoreBackupMd5 in d && d[CoreBackupMd5] == e.digest(d[CoreBackup]))
    ensures RungOf(e, d) != FromCore ==> BootImage(e, d) == e.blank
  {
    BootTakesFirstSound(e, d);
  }

  /** updateMD5 over an nv_data.bin that holds img. */
  function UpdateMd5Calls(e: Env, img: seq<Byte>, md5Enabled: bool): seq<Call> {
    Put(NvDataMd5, e.digest(img)) + if md5Enabled then [] else Put(State, [49])
  }

  /** backupNVData over an nv_data.bin that holds img, once a primary digest exists. */
  function CopyCalls(e: Env, img: Image, digest: seq<Byte>, full: bool): seq<Call> {
    Put(NvBackup, img) + Put(NvBackupMd5, digest) +
    if full then Put(CoreBackup, img[..CORE_SIZE]) + Put(CoreBackupMd5, e.digest(img[..CORE_SIZE])) else []
  }

  /** Core image and padding, written to both files alternately. */
  function FillCalls(core: seq<Byte>): seq<Call> {
    [Write(NvData, core), Write(NvBackup, core), Write(NvData, PADDING), Write(NvBackup, PADDING)]
  }

  /** Core recovery writes both images before either digest. */
  function CoreCalls(e: Env, core: seq<Byte>): seq<Call>
    requires |core| == CORE_SIZE
  {
    [Create(NvData), Create(NvBackup)] + FillCalls(core) +
    Put(NvBackupMd5, e.digest(Padded(core))) + Put(StrayMd5, e.digest(Padded(core)))
  }

  /** The calls the constructor makes on this disk. */
  function BootCalls(e: Env, d: Disk): seq<Call> {
    var img := BootImage(e, d);
    match RungOf(e, d)
    case Primary => []
    case FromBackup => Put(NvData, img) + UpdateMd5Calls(e, img, Enabled(d))
    case FromCore => CoreCalls(e, d[CoreBackup])
    case FromFirmware =>
      Put(NvData, img) + UpdateMd5Calls(e, img, Enabled(d)) + CopyCalls(e, img, e.digest(img), true)
  }

  /* Crash invariants. */

  /** Only nv_data.bin and its digest may differ from d, and a full-size nv_data.bin is img. */
  ghost predicate Repairing(d: Disk, img: Image, x: Disk) {
    && SameExcept(d, x, {NvData, NvDataMd5})
    && (|Content(x, NvData)| == NVDATA_SIZE ==> x[NvData] == img)
  }

  /** nv_data.bin is img and its digest says so. */
  ghost predicate Settled(e: Env, img: Image, x: Disk) {
    && NvData in x && x[NvData] == img
    && NvDataMd5 in x && x[NvDataMd5] == e.digest(img)
  }

  /** Only files rebuilt from the core backup may differ, and full-size images among them are img. */
  ghost predicate Rebuilding(d: Disk, img: Image, x: Disk) {
    && SameExcept(d, x, {NvData, NvBackup, NvBackupMd5, StrayMd5})
    && (|Content(x, NvData)| == NVDATA_SIZE ==> x[NvData] == img)
    && (|Content(x, NvBackup)| == NVDATA_SIZE ==> x[NvBackup] == img)
  }

  lemma RepairingBoots(e: Env, d: Disk, x: Disk)
    requires RungOf(e, d) in {FromBackup, FromFirmware} && Repairing(d, BootImage(e, d), x)
    ensures BootImage(e, x) == BootImage(e, d)
    ensures RungOf(e, x) in {Primary, RungOf(e, d)}
  {
    assert forall f :: f !in {NvData, NvDataMd5} ==> (f in x <==> f in d) && (f in x ==> x[f] == d[f]) by {
      forall f | f !in {NvData, NvDataMd5} ensures (f in x <==> f in d) && (f in x ==> x[f] == d[f]) {
        assert Content(x, f) == Content(d, f);
      }
    }
    assert NvData in x && |x[NvData]| == NVDATA_SIZE ==> Content(x, NvData) == x[NvData];
  }

  lemma RebuildingBoots(e: Env, d: Disk, x: Disk)
    requires RungOf(e, d) == FromCore && Rebuilding(d, BootImage(e, d), x)
    ensures BootImage(e, x) == BootImage(e, d)
    ensures RungOf(e, x) in {Primary, FromBackup, FromCore}
  {
    forall f | f in {State, CoreBackup, CoreBackupMd5} ensures (f in x <==> f in d) && (f in x ==> x[f] == d[f]) {
      assert Content(x, f) == Content(d, f);
    }
    assert NvData in x && |x[NvData]| == NVDATA_SIZE ==> Content(x, NvData) == x[NvData];
    assert NvBackup in x && |x[NvBackup]| == NVDATA_SIZE ==> Content(x, NvBackup) == x[NvBackup];
  }

  /** A crash while img is being written over nv_data.bin. */
  lemma CrashWritingData(d: Disk, img: Image, x: Disk)
    requires CrashState(d, Put(NvData, img), x)
    ensures x == d || Repairing(d, img, x)
  {
    PutCrash(d, NvData, img, x);
    if x != d {
      var k: nat :| k <= |img| && x == d[NvData := img[..k]];
      assert |img[..k]| == NVDATA_SIZE ==> img[..k] == img;
    }
  }

  /** A crash inside updateMD5 reaches the marker only after the digest is complete. */
  lemma CrashUpdatingMd5(e: Env, d: Disk, img: Image, md5Enabled: bool, x: Disk)
    requires NvData in d && d[NvData] == img
    requires CrashState(d, UpdateMd5Calls(e, img, md5Enabled), x)
    ensures SameExcept(d, x, {NvDataMd5, State}) && x[NvData] == img
    ensures SameExcept(d, x, {NvDataMd5}) || Settled(e, img, x)
  {
    var digest := e.digest(img);
    CrashTouchesOnly(d, UpdateMd5Calls(e, img, md5Enabled), {NvDataMd5, State}, x);
    assert Content(x, NvData) == Content(d, NvData);
    var marker := if md5Enabled then [] else Put(State, [49]);
    CrashConcat(d, Put(NvDataMd5, digest), marker, x);
    PutRuns(d, NvDataMd5, digest);
    if CrashState(d, Put(NvDataMd5, digest), x) {
      CrashTouchesOnly(d, Put(NvDataMd5, digest), {NvDataMd5}, x);
    } else {
      CrashTouchesOnly(d[NvDataMd5 := digest], marker, {State}, x);
      assert Content(x, NvDataMd5) == digest;
    }
  }

  lemma UpdateMd5Runs(e: Env, d: Disk, img: seq<Byte>, md5Enabled: bool)
    ensures var x := Run(d, UpdateMd5Calls(e, img, md5Enabled));
            x == if md5Enabled then d[NvDataMd5 := e.digest(img)]
                 else d[NvDataMd5 := e.digest(img)][State := [49]]
  {
    var digest := e.digest(img);
    PutRuns(d, NvDataMd5, digest);
    PutRuns(d[NvDataMd5 := digest], State, [49]);
    RunConcat(d, Put(NvDataMd5, digest), if md5Enabled then [] else Put(State, [49]));
  }

  /** Backing up never touches nv_data.bin or its digest. */
  lemma CrashCopying(e: Env, d: Disk, img: Image, digest: seq<Byte>, full: bool, x: Disk)
    requires CrashState(d, CopyCalls(e, img, digest, full), x)
    ensures SameExcept(d, x, {NvBackup, NvBackupMd5, CoreBackup, CoreBackupMd5})
  {
    CrashTouchesOnly(d, CopyCalls(e, img, digest, full), {NvBackup, NvBackupMd5, CoreBackup, CoreBackupMd5}, x);
  }

  /** A crash anywhere in core recovery. */
  lemma CrashRebuilding(e: Env, d: Disk, core: seq<Byte>, x: Disk)
    requires |core| == CORE_SIZE && CrashState(d, CoreCalls(e, core), x)
    ensures x == d || x == d[NvData := []] || Rebuilding(d, Padded(core), x)
  {
    var creates := [Create(NvData), Create(NvBackup)];
    var digest := e.digest(Padded(core));
    var later := FillCalls(core) + (Put(NvBackupMd5, digest) + Put(StrayMd5, digest));
    assert creates[1..] == [Create(NvBackup)] && creates[1..][1..] == [];
    assert CoreCalls(e, core) == creates + later;
    CrashTouchesOnly(d, CoreCalls(e, core), {NvData, NvBackup, NvBackupMd5, StrayMd5}, x);
    CrashConcat(d, creates, later, x);
    hide FillCalls, Put;
    if CrashState(d, creates, x) {
      var d0 := Apply(d, creates[0]);
      assert x == d || x == d0 || CrashState(d0, creates[1..], x);
    } else {
      assert Run(d, creates) == d[NvData := []][NvBackup := []];
      CrashFilling(d[NvData := []][NvBackup := []], core, digest, x);
    }
  }

  /** A crash while two empty files are filled, or later. */
  lemma CrashFilling(d: Disk, core: seq<Byte>, digest: seq<Byte>, x: Disk)
    requires |core| == CORE_SIZE && Content(d, NvData) == Content(d, NvBackup) == []
    requires CrashState(d, FillCalls(core) + (Put(NvBackupMd5, digest) + Put(StrayMd5, digest)), x)
    ensures |Content(x, NvData)| == NVDATA_SIZE ==> Content(x, NvData) == Padded(core)
    ensures |Content(x, NvBackup)| == NVDATA_SIZE ==> Content(x, NvBackup) == Padded(core)
  {
    var writes, puts := FillCalls(core), Put(NvBackupMd5, digest) + Put(StrayMd5, digest);
    WritesOf(core);
    CrashConcat(d, writes, puts, x);
    if CrashState(d, writes, x) {
      CrashAppending(d, writes, NvData, x);
      CrashAppending(d, writes, NvBackup, x);
    } else {
      RunAppending(d, writes, NvData);
      RunAppending(d, writes, NvBackup);
      CrashTouchesOnly(Run(d, writes), puts, {NvBackupMd5, StrayMd5}, x);
      assert Content(x, NvData) == Padded(core) && Content(x, NvBackup) == Padded(core);
    }
  }

  lemma WritesOf(core: seq<Byte>)
    requires |core| == CORE_SIZE
    ensures Written(FillCalls(core), NvData) == Padded(core) && Written(FillCalls(core), NvBackup) == Padded(core)
  {
    var w := FillCalls(core);
    assert w[1..] == [Write(NvBackup, core), Write(NvData, PADDING), Write(NvBackup, PADDING)];
    assert w[1..][1..] == [Write(NvData, PADDING), Write(NvBackup, PADDING)];
    assert w[1..][1..][1..] == [Write(NvBackup, PADDING)];
    assert w[1..][1..][1..][1..] == [];
    assert Written([], NvData) == [] && Written([], NvBackup) == [];
    assert Written(w[1..][1..][1..], NvData) == [] && Written(w[1..][1..][1..], NvBackup) == PADDING + [];
    assert Written(w[1..][1..], NvData) == PADDING + [] && Written(w[1..][1..], NvBackup) == [] + (PADDING + []);
    assert Written(w, NvData) == core + PADDING;
    assert Written(w, NvBackup) == core + PADDING;
  }

  /* The main theorems. */

  /** A boot cut anywhere leaves a disk whose next boot loads the same image. As long as some rung short
      of the firmware default works it keeps working, and the core backup and its digest never change. */
  lemma CrashedBootLoadsSameImage(e: Env, d: Disk, x: Disk)
    requires CrashState(d, BootCalls(e, d), x)
    ensures BootImage(e, x) == BootImage(e, d)
    ensures RungOf(e, d) != FromFirmware ==>
              RungOf(e, x) != FromFirmware && SameExcept(d, x, {NvData, NvDataMd5, NvBackup, NvBackupMd5, StrayMd5, State})
  {
    var img := BootImage(e, d);
    match RungOf(e, d)
    case Primary =>
    case FromCore => CrashedCoreRecovery(e, d, x);
    case FromBackup =>
      CrashConcat(d, Put(NvData, img), UpdateMd5Calls(e, img, Enabled(d)), x);
      PutRuns(d, NvData, img);
      CrashTouchesOnly(d, BootCalls(e, d), {NvData, NvDataMd5, State}, x);
      CrashedFirstSteps(e, d, x);
    case FromFirmware =>
      var steps := Put(NvData, img) + UpdateMd5Calls(e, img, Enabled(d));
      var copies := CopyCalls(e, img, e.digest(img), true);
      assert BootCalls(e, d) == steps + copies;
      CrashConcat(d, steps, copies, x);
      if CrashState(d, steps, x) {
        CrashedFirstSteps(e, d, x);
      } else {
        FirstStepsSettle(e, d);
        CrashCopying(e, Run(d, steps), img, e.digest(img), true, x);
        assert Content(x, NvData) == img && Content(x, NvDataMd5) == e.digest(img);
      }
  }

  lemma CrashedCoreRecovery(e: Env, d: Disk, x: Disk)
    requires RungOf(e, d) == FromCore && CrashState(d, BootCalls(e, d), x)
    ensures BootImage(e, x) == BootImage(e, d) && RungOf(e, x) != FromFirmware
    ensures SameExcept(d, x, {NvData, NvBackup, NvBackupMd5, StrayMd5})
  {
    CrashRebuilding(e, d, d[CoreBackup], x);
    if x != d && x != d[NvData := []] {
      RebuildingBoots(e, d, x);
    }
  }

  /** nv_data.bin, then its digest, then the marker: shared by the second and the last rung. */
  lemma CrashedFirstSteps(e: Env, d: Disk, x: Disk)
    requires RungOf(e, d) in {FromBackup, FromFirmware}
    requires var img := BootImage(e, d);
             CrashState(d, Put(NvData, img) + UpdateMd5Calls(e, img, Enabled(d)), x)
    ensures BootImage(e, x) == BootImage(e, d) && RungOf(e, x) in {Primary, RungOf(e, d)}
  {
    var img := BootImage(e, d);
    CrashConcat(d, Put(NvData, img), UpdateMd5Calls(e, img, Enabled(d)), x);
    PutRuns(d, NvData, img);
    var d1 := d[NvData := img];
    if CrashState(d, Put(NvData, img), x) {
      CrashWritingData(d, img, x);
      if x != d { RepairingBoots(e, d, x); }
    } else {
      CrashUpdatingMd5(e, d1, img, Enabled(d), x);
      if SameExcept(d1, x, {NvDataMd5}) {
        assert Content(x, NvData) == img;
        RepairingBoots(e, d, x);
      }
    }
  }

  lemma FirstStepsSettle(e: Env, d: Disk)
    ensures var img := BootImage(e, d);
            var x := Run(d, Put(NvData, img) + UpdateMd5Calls(e, img, Enabled(d)));
            Settled(e, img, x) && Enabled(x)
  {
    var img := BootImage(e, d);
    RunConcat(d, Put(NvData, img), UpdateMd5Calls(e, img, Enabled(d)));
    PutRuns(d, NvData, img);
    UpdateMd5Runs(e, d[NvData := img], img, Enabled(d));
  }

  /** ds is a chain of boots, each of which was cut somewhere (or ran to its end). */
  ghost predicate CrashedBoots(e: Env, ds: seq<Disk>) {
    forall i :: 0 <= i < |ds| - 1 ==> CrashState(ds[i], BootCalls(e, ds[i]), ds[i + 1])
  }

  /** After any number of crashed boots the image is still the one an uninterrupted boot would have
      loaded at the start, and unless everything was already lost the core backup is untouched. */
  lemma {:induction false} AnyNumberOfCrashedBoots(e: Env, ds: seq<Disk>)
    requires ds != [] && CrashedBoots(e, ds)
    ensures var last := ds[|ds| - 1];
            && BootImage(e, last) == BootImage(e, ds[0])
            && (RungOf(e, ds[0]) != FromFirmware ==>
                  && RungOf(e, last) != FromFirmware
                  && Content(last, CoreBackup) == Content(ds[0], CoreBackup)
                  && Content(last, CoreBackupMd5) == Content(ds[0], CoreBackupMd5))
  {
    if |ds| > 1 {
      var before := ds[..|ds| - 1];
      AnyNumberOfCrashedBoots(e, before);
      CrashedBootLoadsSameImage(e, ds[|ds| - 2], ds[|ds| - 1]);
    }
  }
}
