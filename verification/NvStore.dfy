/** The NV store as an object: the constructor's ladder, digests, reads, writes and backups, each
    proved to make exactly the calls the specification lists, in that order. */
module NvStore {
  import opened Bytes
  import opened Md5
  import opened NvDisk
  import opened NvBoot

  const CHUNK: nat := 16384
  const ERANGE: int := 34
  const EINVAL: int := 22

  function EnvOf(hash: Hash, blank: Image): Env {
    Env(s => Digest(hash, s), blank)
  }

  /** What pread(fd, buf, n, at) yields on a file holding s. */
  function Slice(s: seq<Byte>, at: nat, n: nat): seq<Byte> {
    if at >= |s| then [] else if at + n <= |s| then s[at..at + n] else s[at..]
  }

  /** The bytes the chunked digest covers: whole 16 KiB chunks. */
  function RoundUp(size: nat): nat {
    (size + CHUNK - 1) / CHUNK * CHUNK
  }

  lemma SliceConcat(s: seq<Byte>, at: nat, n: nat, m: nat)
    ensures Slice(s, at, n) + Slice(s, at + n, m) == Slice(s, at, n + m)
  {
  }

  /** For the two sizes in use the chunks cover exactly the file. */
  lemma WholeChunks()
    ensures RoundUp(NVDATA_SIZE) == NVDATA_SIZE && RoundUp(CORE_SIZE) == CORE_SIZE
  {
  }

  /** The range guard, in the source's 32-bit unsigned arithmetic over a signed offset. */
  predicate GuardPasses(offset: int, size: nat) {
    (offset + size) % 0x1_0000_0000 <= NVDATA_SIZE
  }

  /** What a store access of `size` bytes at `offset` answers: 0, or a negative errno. */
  function AccessStatus(offset: int, size: nat): int {
    if !GuardPasses(offset, size) then -ERANGE else if offset < 0 then -EINVAL else 0
  }

  /** An access is accepted exactly when it lies inside the image, whatever the offset's sign. */
  lemma AcceptedIffInRange(offset: int, size: nat)
    requires -0x8000_0000 <= offset < 0x8000_0000 && size < 0x8000_0000
    ensures AccessStatus(offset, size) == 0 <==> 0 <= offset && offset + size <= NVDATA_SIZE
    ensures AccessStatus(offset, size) == -34 <==> offset + size < 0 || offset + size > NVDATA_SIZE
    ensures AccessStatus(offset, size) == -22 <==> offset < 0 <= offset + size <= NVDATA_SIZE
  {
  }

  type Offset = o: int | -0x8000_0000 <= o < 0x8000_0000
  type Payload = s: seq<Byte> | |s| < 0x8000_0000

  function WriteCalls(e: Env, img: Image, offset: nat, data: seq<Byte>, md5Enabled: bool): seq<Call> {
    [PWrite(NvData, offset, data)] + UpdateMd5Calls(e, Overlay(img, offset, data), md5Enabled)
  }

  lemma AddNothing(calls: seq<Call>)
    ensures [] + calls == calls
  {
  }

  class AndroidFileSystem {
    const hash: Hash
    const blank: Image
    var disk: Disk
    var nvdata: Option<File>
    var md5Enabled: bool
    /** The disk this process started on, and the disk-changing calls it has made since. */
    ghost const start: Disk
    ghost var calls: seq<Call>

    ghost function Environment(): Env {
      EnvOf(hash, blank)
    }

    ghost predicate Consistent()
      reads this
    {
      disk == Run(start, calls)
    }

    /** The state every public operation starts and ends in. */
    ghost predicate Valid()
      reads this
    {
      && Consistent()
      && nvdata == Some(NvData)
      && NvData in disk && |disk[NvData]| == NVDATA_SIZE
      && md5Enabled == Enabled(disk)
    }

    /** The NV image the store currently holds. */
    ghost function Contents(): Image
      reads this
      requires Valid()
    {
      disk[NvData]
    }

    method Do(c: Call)
      requires Consistent()
      modifies `disk, `calls
      ensures Consistent() && disk == Apply(old(disk), c) && calls == old(calls) + [c]
    {
      RunConcat(start, calls, [c]);
      disk := Apply(disk, c);
      calls := calls + [c];
    }

    method PutFile(f: File, data: seq<Byte>)
      requires Consistent()
      modifies `disk, `calls
      ensures Consistent() && disk == old(disk)[f := data] && calls == old(calls) + Put(f, data)
    {
      Do(Create(f));
      Do(Write(f, data));
      assert [] + data == data;
    }

    /** calculateFileMD5: the loop over 16 KiB chunks digests the same bytes as one update would. */
    method CalculateFileMD5(f: File, offset: nat, size: nat) returns (digest: seq<Byte>)
      ensures digest == Digest(hash, Slice(Content(disk, f), offset, RoundUp(size)))
    {
      hide Magic;
      var ctx := hash.init;
      var content := Content(disk, f);
      var i := offset;
      while i < offset + size
        invariant offset <= i <= offset + RoundUp(size) && (i - offset) % CHUNK == 0
        invariant ctx == Update(hash, hash.init, Slice(content, offset, i - offset))
        decreases offset + size - i
      {
        var chunk := Slice(content, i, CHUNK);
        UpdateConcat(hash, hash.init, Slice(content, offset, i - offset), chunk);
        SliceConcat(content, offset, i - offset, CHUNK);
        ctx := Update(hash, ctx, chunk);
        i := i + CHUNK;
      }
      assert i - offset == RoundUp(size);
      digest := Hex(hash.final(Update(hash, ctx, Magic())));
    }

    method TryLoadNV(f: File, md5Enabled: bool, expected: nat) returns (fd: Option<File>)
      requires f in {NvData, NvBackup, CoreBackup} && RoundUp(expected) == expected
      ensures fd == if Loads(Environment(), disk, f, md5Enabled, expected) then Some(f) else None
      ensures fd.Some? ==> f in disk && |disk[f]| == expected
    {
      hide Magic;
      if f !in disk || |disk[f]| != expected {
        return None;
      }
      if md5Enabled {
        if Md5Of(f) !in disk {
          return None;
        }
        var md5 := disk[Md5Of(f)];
        var calculated := CalculateFileMD5(f, 0, expected);
        assert Slice(disk[f], 0, expected) == disk[f];
        if |md5| != 32 || md5 != calculated {
          return None;
        }
      }
      fd := Some(f);
    }

    method UpdateMD5()
      requires Consistent() && nvdata == Some(NvData) && NvData in disk && |disk[NvData]| == NVDATA_SIZE
      requires md5Enabled == Enabled(disk)
      modifies `disk, `calls, `md5Enabled
      ensures Valid() && md5Enabled && disk[NvData] == old(disk[NvData])
      ensures calls == old(calls) + UpdateMd5Calls(Environment(), disk[NvData], old(md5Enabled))
      ensures NvDataMd5 in disk && disk[NvDataMd5] == Environment().digest(disk[NvData])
      ensures SameExcept(old(disk), disk, {NvDataMd5, State})
      ensures State in disk && disk[State] == if old(md5Enabled) then old(disk[State]) else [49]
    {
      hide Digest;
      WholeChunks();
      var digest := CalculateFileMD5(NvData, 0, NVDATA_SIZE);
      assert Slice(disk[NvData], 0, NVDATA_SIZE) == disk[NvData];
      PutFile(NvDataMd5, digest);
      if !md5Enabled {
        PutFile(State, [49]);
        md5Enabled := true;
      }
    }

    /** Digests count unless the marker file is missing or holds exactly "0". */
    method ReadMarker() returns (enabled: bool)
      ensures enabled == Enabled(disk)
    {
      enabled := State in disk;
      if enabled {
        var content := disk[State];
        enabled := |content| != 1 || content[0] != 48;
      }
    }

    /** Boots over a disk: afterwards the store holds the ladder's image, and the calls made are
        exactly those of the specification. */
    constructor (hash: Hash, blank: Image, efs: Disk)
      ensures this.hash == hash && this.blank == blank && start == efs
      ensures Valid() && Contents() == BootImage(Environment(), efs)
      ensures FirstSound(Environment(), efs, Contents())
      ensures calls == BootCalls(Environment(), efs)
    {
      this.hash, this.blank := hash, blank;
      this.disk, this.start, this.calls := efs, efs, [];
      this.nvdata, this.md5Enabled := None, false;
      new;
      assert Consistent();
      BootTakesFirstSound(Environment(), efs);
      hide FirstSound, Sound, Loads, RungOf, BootImage, BootCalls, Digest, Run, Apply, Overlay, Put, CopyCalls, CoreCalls, UpdateMd5Calls;
      WholeChunks();
      md5Enabled := ReadMarker();
      LoadFullImage();
      AddNothing(BootCalls(Environment(), efs));
      if nvdata.None? {
        LoadCoreOrDefault();
      }
    }

    /** The two rungs below: the core backup, and the firmware's default. */
    method LoadCoreOrDefault()
      requires Consistent() && md5Enabled == Enabled(disk) && nvdata.None?
      requires RungOf(Environment(), disk) in {FromCore, FromFirmware}
      modifies this
      ensures Valid() && Contents() == BootImage(Environment(), old(disk))
      ensures calls == old(calls) + BootCalls(Environment(), old(disk))
    {
      hide Digest, Run, Apply, Overlay, Put, CopyCalls, CoreCalls, UpdateMd5Calls;
      WholeChunks();
      nvdata := TryLoadNV(CoreBackup, md5Enabled, CORE_SIZE);
      if nvdata.Some? {
        RecoverFromCore();
      }
      if nvdata.None? {
        ProceedWithDefault();
      }
    }

    /** The two rungs that load a full image; if neither does, nothing has changed. */
    method LoadFullImage()
      requires Consistent() && md5Enabled == Enabled(disk)
      modifies this
      ensures nvdata.Some? <==> RungOf(Environment(), old(disk)) in {Primary, FromBackup}
      ensures nvdata.Some? ==> Valid() && Contents() == BootImage(Environment(), old(disk))
                               && calls == old(calls) + BootCalls(Environment(), old(disk))
      ensures nvdata.None? ==> disk == old(disk) && calls == old(calls) && md5Enabled == old(md5Enabled)
    {
      hide Digest, Run, Apply, Overlay, Put, CopyCalls, CoreCalls, UpdateMd5Calls;
      WholeChunks();
      nvdata := TryLoadNV(NvData, md5Enabled, NVDATA_SIZE);
      if nvdata.None? {
        nvdata := TryLoadNV(NvBackup, md5Enabled, NVDATA_SIZE);
        if nvdata.Some? {
          RecoverFromBackup();
        }
      }
    }

    method RecoverFromBackup()
      requires Consistent() && nvdata == Some(NvBackup) && md5Enabled == Enabled(disk)
      requires NvBackup in disk && |disk[NvBackup]| == NVDATA_SIZE
      modifies this
      ensures Valid() && Contents() == old(disk[NvBackup])
      ensures calls == old(calls) + (Put(NvData, Contents()) + UpdateMd5Calls(Environment(), Contents(), old(md5Enabled)))
    {
      hide Digest;
      PutFile(NvData, disk[NvBackup]);
      nvdata := Some(NvData);
      UpdateMD5();
    }

    /** Truncates nv_data.bin and its backup. */
    method OpenBoth()
      requires Consistent()
      modifies `disk, `calls
      ensures Consistent() && disk == old(disk)[NvData := []][NvBackup := []]
      ensures calls == old(calls) + [Create(NvData), Create(NvBackup)]
    {
      Do(Create(NvData));
      Do(Create(NvBackup));
    }

    /** Writes the core image and the padding to both, alternately. */
    method FillBoth(core: seq<Byte>)
      requires Consistent() && |core| == CORE_SIZE
      requires NvData in disk && NvBackup in disk && disk[NvData] == disk[NvBackup] == []
      modifies `disk, `calls
      ensures Consistent() && disk == old(disk)[NvData := Padded(core)][NvBackup := Padded(core)]
      ensures calls == old(calls) + FillCalls(core)
    {
      hide Digest;
      Do(Write(NvData, core));
      Do(Write(NvBackup, core));
      assert disk == old(disk)[NvData := core][NvBackup := core] by {
        assert [] + core == core;
      }
      Do(Write(NvData, PADDING));
      Do(Write(NvBackup, PADDING));
    }

    method RecoverFromCore()
      requires Consistent() && nvdata == Some(CoreBackup) && md5Enabled == Enabled(disk)
      requires CoreBackup in disk && |disk[CoreBackup]| == CORE_SIZE
      modifies this
      ensures Valid() && Contents() == Padded(old(disk[CoreBackup]))
      ensures calls == old(calls) + CoreCalls(Environment(), old(disk[CoreBackup]))
    {
      hide Digest, Put, Run, Apply, Overlay, Padded;
      var core := disk[CoreBackup];
      OpenBoth();
      FillBoth(core);
      nvdata := Some(NvData);
      WholeChunks();
      var digest := CalculateFileMD5(NvData, 0, NVDATA_SIZE);
      assert Slice(disk[NvData], 0, NVDATA_SIZE) == disk[NvData];
      PutFile(NvBackupMd5, digest);
      PutFile(StrayMd5, digest);
    }

    method ProceedWithDefault()
      requires Consistent() && md5Enabled == Enabled(disk)
      modifies this
      ensures Valid() && Contents() == blank
      ensures var e := Environment();
              calls == old(calls) + (Put(NvData, blank) + UpdateMd5Calls(e, blank, old(md5Enabled))
                                     + CopyCalls(e, blank, e.digest(blank), true))
    {
      hide Digest, Put, UpdateMd5Calls, CopyCalls, Run, Apply, Overlay;
      PutFile(NvData, blank);
      nvdata := Some(NvData);
      UpdateMD5();
      var panicked := BackupNVData(true);
    }

    /** backupNVData; true means the process panicked because no primary digest exists to copy. */
    method BackupNVData(full: bool) returns (panicked: bool)
      requires Valid()
      modifies this
      ensures Valid() && Contents() == old(Contents())
      ensures panicked <==> old(md5Enabled) && NvDataMd5 !in old(disk)
      ensures calls == old(calls) + BackupCalls(Environment(), old(disk), full)
    {
      hide Digest, Put, UpdateMd5Calls, Run, Apply, Overlay;
      if !md5Enabled {
        UpdateMD5();
      }
      if NvDataMd5 !in disk {
        return true;
      }
      hide CopyCalls;
      Copy(disk[NvDataMd5], full);
      panicked := false;
    }

    /** The copying half of backupNVData. */
    method Copy(digest: seq<Byte>, full: bool)
      requires Valid()
      modifies `disk, `calls
      ensures Valid() && Contents() == old(Contents())
      ensures calls == old(calls) + CopyCalls(Environment(), Contents(), digest, full)
    {
      hide Digest, Put, Run, Apply;
      PutFile(NvBackup, disk[NvData]);
      PutFile(NvBackupMd5, digest);
      if full {
        BackupCore();
      }
    }

    /** The full backup's second half: the first megabyte and its digest. */
    method BackupCore()
      requires Valid()
      modifies `disk, `calls
      ensures Valid() && Contents() == old(Contents())
      ensures var core := Contents()[..CORE_SIZE];
              calls == old(calls) + (Put(CoreBackup, core) + Put(CoreBackupMd5, Environment().digest(core)))
    {
      hide Digest;
      PutFile(CoreBackup, Slice(disk[NvData], 0, CORE_SIZE));
      WholeChunks();
      var coreDigest := CalculateFileMD5(CoreBackup, 0, CORE_SIZE);
      assert Slice(disk[CoreBackup], 0, CORE_SIZE) == disk[CoreBackup];
      PutFile(CoreBackupMd5, coreDigest);
    }

    method ReadNVData(offset: Offset, size: nat) returns (status: int, data: seq<Byte>)
      requires Valid() && size < 0x8000_0000
      ensures status == AccessStatus(offset, size)
      ensures status == 0 ==> 0 <= offset && offset + size <= NVDATA_SIZE && data == Contents()[offset..offset + size]
      ensures status != 0 ==> data == []
    {
      AcceptedIffInRange(offset, size);
      status, data := AccessStatus(offset, size), [];
      if status == 0 {
        data := Slice(disk[NvData], offset, size);
      }
    }

    method WriteNVData(offset: Offset, data: Payload) returns (status: int)
      requires Valid()
      modifies this
      ensures Valid() && status == AccessStatus(offset, |data|)
      ensures status != 0 ==> calls == old(calls) && disk == old(disk)
      ensures status == 0 ==>
                && 0 <= offset && offset + |data| <= NVDATA_SIZE
                && Contents() == old(Contents()[..offset]) + data + old(Contents()[offset + |data|..])
                && calls == old(calls) + WriteCalls(Environment(), old(Contents()), offset, data, old(md5Enabled))
                && Content(disk, NvDataMd5) == Environment().digest(Contents()) && md5Enabled
    {
      hide Digest;
      AcceptedIffInRange(offset, |data|);
      status := AccessStatus(offset, |data|);
      if status == 0 {
        Do(PWrite(NvData, offset, data));
        UpdateMD5();
      }
    }
  }

  /** The calls backupNVData makes on a running store whose disk is d. */
  function BackupCalls(e: Env, d: Disk, full: bool): seq<Call>
    requires NvData in d && |d[NvData]| == NVDATA_SIZE
  {
    if !Enabled(d) then
      UpdateMd5Calls(e, d[NvData], false) + CopyCalls(e, d[NvData], e.digest(d[NvData]), full)
    else if NvDataMd5 in d then
      CopyCalls(e, d[NvData], d[NvDataMd5], full)
    else []
  }
}
