/** The EFS partition as the NV store uses it: a map from file to content, the system calls that
    change it, and the disks a crash in the middle of a run of calls can leave behind. */
module NvDisk {
  import opened Bytes

  /** Every file the NV store touches. StrayMd5 is the digest name written by core recovery. */
  datatype File =
    | NvData | NvDataMd5
    | NvBackup | NvBackupMd5
    | CoreBackup | CoreBackupMd5
    | StrayMd5
    | State

  type Disk = map<File, seq<Byte>>

  function Path(f: File): string {
    match f
    case NvData => "/nv_data.bin"
    case NvDataMd5 => "/nv_data.bin.md5"
    case NvBackup => "/.nv_data.bak"
    case NvBackupMd5 => "/.nv_data.bak.md5"
    case CoreBackup => "/.nv_core.bak"
    case CoreBackupMd5 => "/.nv_core.bak.md5"
    case StrayMd5 => "/.nv_data.md5"
    case State => "/.nv_state"
  }

  /** The digest file consulted when `f` is loaded. */
  function Md5Of(f: File): File
    requires f in {NvData, NvBackup, CoreBackup}
  {
    match f
    case NvData => NvDataMd5
    case NvBackup => NvBackupMd5
    case _ => CoreBackupMd5
  }

  /** Loading appends ".md5" to the file name; the name written by core recovery is none of those. */
  lemma DigestNames(f: File)
    requires f in {NvData, NvBackup, CoreBackup}
    ensures Path(Md5Of(f)) == Path(f) + ".md5"
    ensures Path(StrayMd5) != Path(Md5Of(f))
  {
  }

  /** The calls that change the disk. Write appends at the end of a file just created. */
  datatype Call =
    | Create(file: File)
    | Write(file: File, data: seq<Byte>)
    | PWrite(file: File, at: nat, data: seq<Byte>)

  function Content(d: Disk, f: File): seq<Byte> {
    if f in d then d[f] else []
  }

  /** `s` with `data` stored at offset `at`; a gap past the end reads as zeros. */
  function Overlay(s: seq<Byte>, at: nat, data: seq<Byte>): seq<Byte> {
    if at + |data| <= |s| then s[..at] + data + s[at + |data|..]
    else if at <= |s| then s[..at] + data
    else s + Fill(0, at - |s|) + data
  }

  function Apply(d: Disk, c: Call): Disk {
    match c
    case Create(f) => d[f := []]
    case Write(f, data) => d[f := Content(d, f) + data]
    case PWrite(f, at, data) => d[f := Overlay(Content(d, f), at, data)]
  }

  function Length(c: Call): nat {
    if c.Create? then 0 else |c.data|
  }

  /** The call as far as its first k bytes. */
  function CutAt(c: Call, k: nat): Call
    requires k <= Length(c)
  {
    match c
    case Create(_) => c
    case Write(f, data) => Write(f, data[..k])
    case PWrite(f, at, data) => PWrite(f, at, data[..k])
  }

  function Run(d: Disk, calls: seq<Call>): Disk
    decreases |calls|
  {
    if calls == [] then d else Run(Apply(d, calls[0]), calls[1..])
  }

  /** x is a disk that running `calls` on d may leave if it is cut anywhere, also inside a write. */
  ghost predicate CrashState(d: Disk, calls: seq<Call>, x: Disk)
    decreases |calls|
  {
    || x == d
    || (calls != [] && exists k: nat :: k <= Length(calls[0]) && x == Apply(d, CutAt(calls[0], k)))
    || (calls != [] && CrashState(Apply(d, calls[0]), calls[1..], x))
  }

  /** x and d agree on every file outside `files`. */
  ghost predicate SameExcept(d: Disk, x: Disk, files: set<File>) {
    forall f :: f !in files ==> (f in x <==> f in d) && Content(x, f) == Content(d, f)
  }

  lemma {:induction false} RunConcat(d: Disk, a: seq<Call>, b: seq<Call>)
    ensures Run(d, a + b) == Run(Run(d, a), b)
    decreases |a|
  {
    if a == [] {
      assert a + b == b;
    } else {
      assert (a + b)[1..] == a[1..] + b;
      RunConcat(Apply(d, a[0]), a[1..], b);
    }
  }

  /** A completed run is one of its own crash states. */
  lemma {:induction false} CompletedIsCrashState(d: Disk, calls: seq<Call>)
    ensures CrashState(d, calls, Run(d, calls))
    decreases |calls|
  {
    if calls != [] {
      CompletedIsCrashState(Apply(d, calls[0]), calls[1..]);
    }
  }

  /** A crash inside a + b is a crash inside a, or inside b after all of a. */
  lemma {:induction false} CrashConcat(d: Disk, a: seq<Call>, b: seq<Call>, x: Disk)
    requires CrashState(d, a + b, x)
    ensures CrashState(d, a, x) || CrashState(Run(d, a), b, x)
    decreases |a|
  {
    if a == [] {
      assert a + b == b;
    } else if x != d {
      assert (a + b)[0] == a[0] && (a + b)[1..] == a[1..] + b;
      if CrashState(Apply(d, a[0]), a[1..] + b, x) {
        CrashConcat(Apply(d, a[0]), a[1..], b, x);
      }
    }
  }

  /** Crashing is compositional the other way too: a prefix's crash states are crash states of the whole. */
  lemma {:induction false} CrashPrefix(d: Disk, a: seq<Call>, b: seq<Call>, x: Disk)
    requires CrashState(d, a, x) || CrashState(Run(d, a), b, x)
    ensures CrashState(d, a + b, x)
    decreases |a|
  {
    if a == [] {
      assert a + b == b;
    } else if x != d {
      assert (a + b)[0] == a[0] && (a + b)[1..] == a[1..] + b;
      if CrashState(Apply(d, a[0]), a[1..], x) || CrashState(Run(d, a), b, x) {
        CrashPrefix(Apply(d, a[0]), a[1..], b, x);
      }
    }
  }

  /** x is what is left when call i has got as far as its first k bytes. */
  ghost predicate CutInside(d: Disk, calls: seq<Call>, x: Disk, i: nat, k: nat) {
    i < |calls| && k <= Length(calls[i]) && x == Apply(Run(d, calls[..i]), CutAt(calls[i], k))
  }

  /** Nothing is missing and nothing added: the crash states are the disk before the first call, and those
      of each call cut at each byte after all calls before it are complete. */
  lemma {:induction false} CrashStateIff(d: Disk, calls: seq<Call>, x: Disk)
    ensures CrashState(d, calls, x) <==> x == d || exists i: nat, k: nat :: CutInside(d, calls, x, i, k)
    decreases |calls|
  {
    hide Apply, CutAt;
    if calls != [] {
      var d1, rest := Apply(d, calls[0]), calls[1..];
      CrashStateIff(d1, rest, x);
      assert calls[..0] == [];
      if x == d1 {
        WholeCall(calls[0]);
        assert CutInside(d, calls, x, 0, Length(calls[0]));
      }
      if k: nat :| k <= Length(calls[0]) && x == Apply(d, CutAt(calls[0], k)) {
        assert CutInside(d, calls, x, 0, k);
      }
      if i: nat, k: nat :| CutInside(d1, rest, x, i, k) {
        RunFirst(d, calls, i + 1);
        assert CutInside(d, calls, x, i + 1, k);
      }
      if i: nat, k: nat :| CutInside(d, calls, x, i, k) {
        if i > 0 {
          RunFirst(d, calls, i);
          assert CutInside(d1, rest, x, i - 1, k);
        }
      }
    }
  }

  lemma WholeCall(c: Call)
    ensures CutAt(c, Length(c)) == c
  {
    if !c.Create? { assert c.data[..|c.data|] == c.data; }
  }

  lemma RunFirst(d: Disk, calls: seq<Call>, i: nat)
    requires 0 < i <= |calls|
    ensures Run(d, calls[..i]) == Run(Apply(d, calls[0]), calls[1..][..i - 1])
  {
    assert calls[..i][1..] == calls[1..][..i - 1] && calls[..i][0] == calls[0];
  }

  /** NativeFile::put, and every open-truncate-then-write in the store. */
  function Put(f: File, data: seq<Byte>): seq<Call> {
    [Create(f), Write(f, data)]
  }

  lemma PutRuns(d: Disk, f: File, data: seq<Byte>)
    ensures Run(d, Put(f, data)) == d[f := data]
  {
    var p := Put(f, data);
    assert p[1..] == [Write(f, data)];
    var d1 := Apply(d, p[0]);
    assert Run(d1, p[1..]) == Run(Apply(d1, p[1]), p[1..][1..]);
    assert [] + data == data;
  }

  /** A crash inside a put leaves the old file or a prefix of the new one. */
  lemma PutCrash(d: Disk, f: File, data: seq<Byte>, x: Disk)
    requires CrashState(d, Put(f, data), x)
    ensures x == d || exists k: nat :: k <= |data| && x == d[f := data[..k]]
  {
    if x != d {
      var p := Put(f, data);
      var d1 := Apply(d, p[0]);
      assert p[1..] == [Write(f, data)] && p[1..][1..] == [];
      if x == d1 {
        assert x == d[f := data[..0]];
      } else {
        assert CrashState(d1, p[1..], x);
        if k: nat :| k <= Length(p[1]) && x == Apply(d1, CutAt(p[1], k)) {
          assert [] + data[..k] == data[..k];
          assert x == d[f := data[..k]];
        } else {
          assert CrashState(Apply(d1, p[1]), [], x);
          assert [] + data == data[..|data|];
          assert x == d[f := data[..|data|]];
        }
      }
    }
  }

  /** A crash changes no file that the calls do not name. */
  lemma {:induction false} CrashTouchesOnly(d: Disk, calls: seq<Call>, files: set<File>, x: Disk)
    requires CrashState(d, calls, x) && forall i :: 0 <= i < |calls| ==> calls[i].file in files
    ensures SameExcept(d, x, files)
    decreases |calls|
  {
    if x != d && CrashState(Apply(d, calls[0]), calls[1..], x) {
      CrashTouchesOnly(Apply(d, calls[0]), calls[1..], files, x);
      assert SameExcept(d, Apply(d, calls[0]), files);
    }
  }

  /** What a run of calls writes to one file, in order. */
  function Written(calls: seq<Call>, f: File): seq<Byte>
    requires forall i :: 0 <= i < |calls| ==> calls[i].Write?
  {
    if calls == [] then []
    else (if calls[0].file == f then calls[0].data else []) + Written(calls[1..], f)
  }

  lemma PrefixOfAppends(before: seq<Byte>, part: seq<Byte>, now: seq<Byte>, later: seq<Byte>)
    requires part <= now
    ensures before <= before + part <= before + (now + later) && before + now + later == before + (now + later)
  {
  }

  /** What a cut write adds to a file. */
  lemma CutWrite(d: Disk, c: Call, k: nat, f: File)
    requires c.Write? && k <= Length(c)
    ensures Content(Apply(d, CutAt(c, k)), f) == Content(d, f) + if c.file == f then c.data[..k] else []
    ensures Content(Apply(d, c), f) == Content(d, f) + if c.file == f then c.data else []
  {
  }

  /** A crash inside a run of appends leaves each file somewhere between its old and its new length. */
  lemma {:induction false} CrashAppending(d: Disk, calls: seq<Call>, f: File, x: Disk)
    requires CrashState(d, calls, x) && forall i :: 0 <= i < |calls| ==> calls[i].Write?
    ensures Content(d, f) <= Content(x, f) <= Content(d, f) + Written(calls, f)
    decreases |calls|
  {
    if x != d {
      var c, rest := calls[0], calls[1..];
      var now := if c.file == f then c.data else [];
      if k: nat :| k <= Length(c) && x == Apply(d, CutAt(c, k)) {
        CutWrite(d, c, k, f);
        PrefixOfAppends(Content(d, f), if c.file == f then c.data[..k] else [], now, Written(rest, f));
      } else {
        CutWrite(d, c, 0, f);
        CrashAppending(Apply(d, c), rest, f, x);
        PrefixOfAppends(Content(d, f), now, now, Written(rest, f));
      }
    }
  }

  lemma {:induction false} RunAppending(d: Disk, calls: seq<Call>, f: File)
    requires forall i :: 0 <= i < |calls| ==> calls[i].Write?
    ensures Content(Run(d, calls), f) == Content(d, f) + Written(calls, f)
    decreases |calls|
  {
    if calls != [] {
      var c, rest := calls[0], calls[1..];
      CutWrite(d, c, 0, f);
      hide Apply, Content;
      RunAppending(Apply(d, c), rest, f);
      AppendAssoc(Content(d, f), if c.file == f then c.data else [], Written(rest, f));
    }
  }
}
