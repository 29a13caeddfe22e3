/**
 * Slot bookkeeping on remote build hosts (atomic_reactor/utils/remote_host.py).
 *
 * A host offers `slots` build slots. Slot `id` is free when its slot file
 * `slot_{id}` is empty; a pipeline run takes it by writing "prid@timestamp"
 * and gives it back by emptying the file. The SSH transport is replaced by
 * the host's slot-file texts (`files`) and two failure flags; the `flock`
 * that guards a slot, `is_operational` and the ISO-datetime parser are
 * oracles passed in by the caller.
 */
module RemoteHosts {
  import opened Wrappers
  import opened Text
  import opened SlotCodec

  /** The slots directory, relative to the SSH user's home directory. */
  const SlotsRelativePath: string := "osbs_slots"

  /** The exceptions of remote_host.py that reach the model's callers. */
  datatype HostError =
    | SlotReadError            // the remote `touch ... && cat ...` failed
    | SlotWriteError           // the remote `echo ... >` or `truncate -s 0` failed
    | ConfigKeyError(key: string)  // an enabled host's configuration lacks a required key

  /** `slots_dir`: the slots directory under the home directory that `pwd` prints. */
  function SlotsDir(home: string): string
  {
    PathJoin(home, SlotsRelativePath)
  }

  /** The slots directory is a non-empty path that does not end in "/". */
  lemma {:induction false} SlotsDirEnd(home: string)
    ensures SlotsDir(home) != [] && SlotsDir(home)[|SlotsDir(home)| - 1] == 's'
  {
    PathJoinRelative(home, SlotsRelativePath, SlotsRelativePath);
  }

  /** Python's `list(range(n))`. */
  function Range(n: int): (r: seq<int>)
    ensures |r| == if n <= 0 then 0 else n
    ensures forall i :: 0 <= i < |r| ==> r[i] == i
    decreases n
  {
    if n <= 0 then [] else Range(n - 1) + [n - 1]
  }

  /** The text of slot file `slotId`; a file never written reads as "", since `_read` touches it first. */
  function TextOf(files: map<int, string>, slotId: int): string
  {
    if slotId in files then files[slotId] else ""
  }

  /**
   * The slot files after `k` reads of slot `slotId` while other clients
   * store the texts `others` in that file, one just before each read.
   */
  function AfterReads(files: map<int, string>, slotId: int, others: seq<string>, k: nat): map<int, string>
    decreases k
  {
    if k == 0 || others == [] then files
    else AfterReads(files[slotId := others[0]], slotId, others[1..], k - 1)
  }

  /** What the `k`-th read of slot `slotId` returns under those concurrent writes. */
  function Observed(files: map<int, string>, slotId: int, others: seq<string>, k: nat): string
  {
    TextOf(AfterReads(files, slotId, others, k), slotId)
  }

  /** The concurrent writes still to come after `k` reads. */
  function Drop(others: seq<string>, k: nat): seq<string>
  {
    if k >= |others| then [] else others[k..]
  }

  lemma {:induction false} AfterReadsStep(files: map<int, string>, slotId: int, others: seq<string>, k: nat)
    ensures AfterReads(AfterReads(files, slotId, others, k), slotId, Drop(others, k), 1)
         == AfterReads(files, slotId, others, k + 1)
    ensures Drop(Drop(others, k), 1) == Drop(others, k + 1)
    decreases k
  {
    if k > 0 && others != [] {
      AfterReadsStep(files[slotId := others[0]], slotId, others[1..], k - 1);
      assert Drop(others, k) == Drop(others[1..], k - 1);
    }
  }

  /** The ids among 0 .. n - 1 whose slot file reads as empty data, ascending. */
  function FreeIds(files: map<int, string>, n: int): seq<int>
    decreases n
  {
    if n <= 0 then []
    else FreeIds(files, n - 1) + (if IsFreeText(TextOf(files, n - 1)) then [n - 1] else [])
  }

  lemma {:induction false} FreeIdsStep(files: map<int, string>, n: nat, free: bool)
    requires free == IsFreeText(TextOf(files, n))
    ensures FreeIds(files, n + 1) == FreeIds(files, n) + (if free then [n] else [])
  {
  }

  /** `available_slots` lists exactly the ids in range whose slot is free. */
  lemma {:induction false} FreeIdsMembers(files: map<int, string>, n: int)
    ensures forall x :: x in FreeIds(files, n) <==> 0 <= x < n && IsFreeText(TextOf(files, x))
    decreases n
  {
    if n > 0 {
      FreeIdsMembers(files, n - 1);
      var tail := if IsFreeText(TextOf(files, n - 1)) then [n - 1] else [];
      assert FreeIds(files, n) == FreeIds(files, n - 1) + tail;
      forall x
        ensures x in FreeIds(files, n) <==> 0 <= x < n && IsFreeText(TextOf(files, x))
      {
        assert x in FreeIds(files, n) <==> x in FreeIds(files, n - 1) || x in tail;
      }
    }
  }

  /** `available_slots` lists the ids in ascending order, without repetition. */
  lemma {:induction false} FreeIdsAscending(files: map<int, string>, n: int)
    ensures forall i, j :: 0 <= i < j < |FreeIds(files, n)| ==> FreeIds(files, n)[i] < FreeIds(files, n)[j]
    decreases n
  {
    if n > 0 {
      FreeIdsAscending(files, n - 1);
      FreeIdsMembers(files, n - 1);
      var prev := FreeIds(files, n - 1);
      var tail := if IsFreeText(TextOf(files, n - 1)) then [n - 1] else [];
      var all := prev + tail;
      assert FreeIds(files, n) == all;
      forall i, j | 0 <= i < j < |all|
        ensures all[i] < all[j]
      {
        if j >= |prev| {
          assert all[j] == n - 1;
          assert all[i] == prev[i] && prev[i] in prev;
        }
      }
    }
  }

  class RemoteHost {
    const hostname: string
    const username: string
    const sshKeyfile: string
    const slots: int
    /** The texts of the slot files in the slots directory, by slot id. */
    var files: map<int, string>
    /** Whether the remote command that reads a slot file fails. */
    const readFault: bool
    /** Whether the remote command that writes a slot file fails. */
    const writeFault: bool

    /**
     * `files` (the slot files as earlier runs left them) and the fault
     * flags describe the remote host; they are not arguments of the
     * source's constructor, which touches no remote file.
     */
    constructor (hostname: string, username: string, sshKeyfile: string, slots: int,
                 files: map<int, string>, readFault: bool, writeFault: bool)
      ensures this.hostname == hostname && this.username == username
      ensures this.sshKeyfile == sshKeyfile && this.slots == slots
      ensures this.readFault == readFault && this.writeFault == writeFault
      ensures this.files == files
    {
      this.hostname := hostname;
      this.username := username;
      this.sshKeyfile := sshKeyfile;
      this.slots := slots;
      this.readFault := readFault;
      this.writeFault := writeFault;
      this.files := files;
    }

    /** `_is_valid_slot_id`: the id is one of `range(slots)` (see `ValidSlotIdInRange`). */
    predicate IsValidSlotId(slotId: int)
    {
      0 <= slotId < slots
    }

    /** The bounds test is membership in the list `range(slots)`. */
    lemma {:induction false} ValidSlotIdInRange(slotId: int)
      ensures IsValidSlotId(slotId) <==> slotId in Range(slots)
    {
      var valid := Range(slots);
      if 0 <= slotId < slots {
        assert valid[slotId] == slotId;
      }
    }

    /** `_get_slot_path`: `slot_{id}` in the slots directory. */
    function SlotPath(home: string, slotId: int): string
    {
      PathJoin(SlotsDir(home), "slot_" + IntToString(slotId))
    }

    /** `_get_slot_lock_path`: `slot_{id}.lock` in the slots directory. */
    function SlotLockPath(home: string, slotId: int): string
    {
      PathJoin(SlotsDir(home), "slot_" + IntToString(slotId) + ".lock")
    }

    /** Each slot has its own slot file and its own lock file. */
    lemma {:induction false} SlotPathsInjective(home: string, a: int, b: int)
      ensures SlotPath(home, a) == SlotPath(home, b) ==> a == b
      ensures SlotLockPath(home, a) == SlotLockPath(home, b) ==> a == b
    {
      var na, nb := "slot_" + IntToString(a), "slot_" + IntToString(b);
      PathJoinRelative(SlotsDir(home), na, nb);
      PathJoinRelative(SlotsDir(home), na + ".lock", nb + ".lock");
      if na == nb || na + ".lock" == nb + ".lock" {
        assert na == (na + ".lock")[..|na|] && nb == (nb + ".lock")[..|nb|];
        assert IntToString(a) == na[5..] && IntToString(b) == nb[5..];
        IntToStringInjective(a, b);
      }
    }

    /** The lock file is the slot file plus ".lock", and no slot file is a lock file. */
    lemma {:induction false} SlotLockPathShape(home: string, a: int, b: int)
      ensures SlotLockPath(home, a) == SlotPath(home, a) + ".lock"
      ensures SlotPath(home, a) != SlotLockPath(home, b)
    {
      var na, nb := "slot_" + IntToString(a), "slot_" + IntToString(b) + ".lock";
      SlotsDirEnd(home);
      PathJoinSuffix(SlotsDir(home), na, ".lock");
      IntToStringEndsInDigit(a);
      assert na[|na| - 1] == IntToString(a)[|IntToString(a)| - 1];
      PathJoinRelative(SlotsDir(home), na, na);
      PathJoinRelative(SlotsDir(home), nb, nb);
    }

    function FileText(slotId: int): string
      reads this
    {
      TextOf(files, slotId)
    }

    /** The ids in `range(slots)` whose slot is free, in ascending order. */
    function FreeSlots(): seq<int>
      reads this
    {
      FreeIds(files, slots)
    }

    /** A lock of slot `slotId` whose `flock` was acquired succeeds, when nobody else writes the slot file meanwhile. */
    predicate CanLock(files: map<int, string>, slotId: int, isIso: string -> bool)
    {
      IsValidSlotId(slotId) && !readFault && !writeFault
      && IsFreeText(TextOf(files, slotId)) && ValidText(TextOf(files, slotId), isIso)
    }

    /** An unlock of slot `slotId` for `prid` whose `flock` was acquired empties the file, when nobody else writes it meanwhile. */
    predicate CanRelease(files: map<int, string>, slotId: int, prid: string, isIso: string -> bool)
    {
      IsValidSlotId(slotId) && !readFault && !writeFault
      && !IsFreeText(TextOf(files, slotId)) && ValidText(TextOf(files, slotId), isIso)
      && LockedByText(TextOf(files, slotId), prid)
    }

    /** `is_free`: false for an invalid id (nothing is read); otherwise whether the slot file reads as empty data. */
    method IsFree(slotId: int) returns (r: Result<bool, HostError>)
      ensures !IsValidSlotId(slotId) ==> r == Ok(false)
      ensures IsValidSlotId(slotId) && readFault ==> r == Err(SlotReadError)
      ensures IsValidSlotId(slotId) && !readFault ==> r == Ok(IsFreeText(FileText(slotId)))
    {
      if !IsValidSlotId(slotId) {
        return Ok(false);
      }
      var slot := new HostSlot(this, slotId, []);
      r := slot.IsFree();
    }

    /**
     * `lock`: take slot `slotId` for `prid` under the slot's `flock`
     * (`acquired` says whether that succeeded), while other clients store
     * `others` in the slot file before successive reads. Every failure,
     * including a read or write error, comes back as false.
     */
    method Lock(slotId: int, prid: string, now: string, isIso: string -> bool, acquired: bool, others: seq<string>)
      returns (locked: bool)
      modifies this`files
      ensures !IsValidSlotId(slotId) || !acquired ==> !locked && files == old(files)
      ensures IsValidSlotId(slotId) && acquired ==>
        (locked <==> !readFault && !writeFault
                     && IsFreeText(Observed(old(files), slotId, others, 1))
                     && ValidText(Observed(old(files), slotId, others, 2), isIso))
      ensures locked ==> files == AfterReads(old(files), slotId, others, 2)[slotId := LockEntry(prid, now)]
      ensures IsValidSlotId(slotId) && acquired && !locked ==>
        files == AfterReads(old(files), slotId, others, 1) || files == AfterReads(old(files), slotId, others, 2)
      ensures others == [] ==> (locked <==> acquired && CanLock(old(files), slotId, isIso))
      ensures others == [] ==> files == if locked then old(files)[slotId := LockEntry(prid, now)] else old(files)
    {
      if !IsValidSlotId(slotId) || !acquired {
        return false;
      }
      var slot := new HostSlot(this, slotId, others);
      var r := slot.Lock(prid, now, isIso);
      locked := r == Ok(true);
    }

    /**
     * `unlock`: give back slot `slotId` held by `prid`, under the slot's
     * `flock`. A free slot counts as given back; invalid content or
     * another holder refuse; errors come back as false.
     */
    method Unlock(slotId: int, prid: string, isIso: string -> bool, acquired: bool, others: seq<string>)
      returns (unlocked: bool)
      modifies this`files
      ensures !IsValidSlotId(slotId) || !acquired ==> !unlocked && files == old(files)
      ensures IsValidSlotId(slotId) && acquired ==>
        var seen1 := Observed(old(files), slotId, others, 1);
        && (unlocked <==> !readFault
                          && (IsFreeText(seen1)
                              || (ValidText(Observed(old(files), slotId, others, 2), isIso)
                                  && LockedByText(Observed(old(files), slotId, others, 3), prid)
                                  && !writeFault)))
        && (unlocked && IsFreeText(seen1) ==> files == AfterReads(old(files), slotId, others, 1))
        && (unlocked && !IsFreeText(seen1) ==> files == AfterReads(old(files), slotId, others, 3)[slotId := ""])
        && (!unlocked ==> exists k :: 1 <= k <= 3 && files == AfterReads(old(files), slotId, others, k))
      ensures others == [] ==>
        (unlocked <==> acquired && (CanRelease(old(files), slotId, prid, isIso)
                                    || (IsValidSlotId(slotId) && !readFault && IsFreeText(old(FileText(slotId))))))
      ensures others == [] ==>
        files == if acquired && CanRelease(old(files), slotId, prid, isIso) then old(files)[slotId := ""] else old(files)
    {
      if !IsValidSlotId(slotId) || !acquired {
        return false;
      }
      var slot := new HostSlot(this, slotId, others);
      var r := slot.Unlock(prid, isIso);
      unlocked := r == Ok(true);
    }

    /** `available_slots`: the ids in `range(slots)` whose slot is free, ascending; a read error propagates. */
    method AvailableSlots() returns (r: Result<seq<int>, HostError>)
      ensures r.Err? <==> readFault && slots > 0
      ensures r.Err? ==> r.error == SlotReadError
      ensures r.Ok? ==> r.value == FreeSlots()
    {
      var available: seq<int> := [];
      ghost var f := files;
      var slotId := 0;
      while slotId < slots
        invariant 0 <= slotId <= if slots < 0 then 0 else slots
        invariant available == FreeIds(f, slotId)
        invariant files == f
        invariant slotId > 0 ==> !readFault
      {
        var free := IsFree(slotId);
        if free.Err? {
          return Err(free.error);
        }
        FreeIdsStep(f, slotId, free.value);
        if free.value {
          available := available + [slotId];
        }
        slotId := slotId + 1;
      }
      assert slots <= 0 ==> FreeIds(f, slots) == [];
      return Ok(available);
    }
  }

  /** A slot of a host, seen through one SSH session (`HostSlot`). */
  class HostSlot {
    const host: RemoteHost
    const id: int
    /** Texts other clients store in this slot file, one just before each of this session's reads. */
    var concurrent: seq<string>

    constructor (host: RemoteHost, id: int, concurrent: seq<string>)
      ensures this.host == host && this.id == id && this.concurrent == concurrent
    {
      this.host := host;
      this.id := id;
      this.concurrent := concurrent;
    }

    /** What the `k`-th read made since the start of the current call returns. */
    twostate function Seen(k: nat): string
      reads this, host
    {
      Observed(old(host.files), id, old(concurrent), k)
    }

    /** The slot file and the pending concurrent writes are as after `k` reads since the start of the current call. */
    twostate predicate ReadsDone(k: nat)
      reads this, host
    {
      host.files == AfterReads(old(host.files), id, old(concurrent), k)
      && concurrent == Drop(old(concurrent), k)
    }

    /** `_read`: the next concurrent write, if any, lands; then the file is read, or the read fails. */
    method Read() returns (r: Result<string, HostError>)
      modifies this`concurrent, (if concurrent == [] then {} else {host})`files
      ensures ReadsDone(1)
      ensures r == if host.readFault then Err(SlotReadError) else Ok(Seen(1))
    {
      if concurrent != [] {
        host.files := host.files[id := concurrent[0]];
        concurrent := concurrent[1..];
      }
      if host.readFault {
        return Err(SlotReadError);
      }
      return Ok(host.FileText(id));
    }

    /** `_write`: store `data` in the slot file ("" truncates it), or fail leaving it as it was. */
    method Write(data: string) returns (err: Option<HostError>)
      modifies host`files
      ensures host.writeFault ==> err == Some(SlotWriteError) && host.files == old(host.files)
      ensures !host.writeFault ==> err == None && host.files == old(host.files)[id := data]
    {
      if host.writeFault {
        return Some(SlotWriteError);
      }
      host.files := host.files[id := data];
      return None;
    }

    /** `is_free`: the file reads as empty data. */
    method IsFree() returns (r: Result<bool, HostError>)
      modifies this`concurrent, (if concurrent == [] then {} else {host})`files
      ensures ReadsDone(1)
      ensures r == if host.readFault then Err(SlotReadError) else Ok(IsFreeText(Seen(1)))
    {
      var text := Read();
      r := if text.Err? then Err(text.error) else Ok(IsFreeText(text.value));
    }

    /** `is_valid`: the file reads as valid data. */
    method IsValid(isIso: string -> bool) returns (r: Result<bool, HostError>)
      modifies this`concurrent, (if concurrent == [] then {} else {host})`files
      ensures ReadsDone(1)
      ensures r == if host.readFault then Err(SlotReadError) else Ok(ValidText(Seen(1), isIso))
    {
      var text := Read();
      r := if text.Err? then Err(text.error) else Ok(ValidText(text.value, isIso));
    }

    /** `is_locked_by`: the pipeline-run id read from the file is `prid`. */
    method IsLockedBy(prid: string) returns (r: Result<bool, HostError>)
      modifies this`concurrent, (if concurrent == [] then {} else {host})`files
      ensures ReadsDone(1)
      ensures r == if host.readFault then Err(SlotReadError) else Ok(LockedByText(Seen(1), prid))
    {
      var text := Read();
      r := if text.Err? then Err(text.error) else Ok(LockedByText(text.value, prid));
    }

    /**
     * `lock`: refuse a slot that is not free or whose content is invalid,
     * each judged on a fresh read; otherwise write "prid@now".
     */
    method Lock(prid: string, now: string, isIso: string -> bool) returns (r: Result<bool, HostError>)
      modifies this`concurrent, host`files
      ensures host.readFault ==> r == Err(SlotReadError) && ReadsDone(1)
      ensures !host.readFault && !IsFreeText(Seen(1)) ==> r == Ok(false) && ReadsDone(1)
      ensures !host.readFault && IsFreeText(Seen(1)) && !ValidText(Seen(2), isIso) ==>
        r == Ok(false) && ReadsDone(2)
      ensures !host.readFault && IsFreeText(Seen(1)) && ValidText(Seen(2), isIso) ==>
        && concurrent == Drop(old(concurrent), 2)
        && (host.writeFault ==> r == Err(SlotWriteError)
                                && host.files == AfterReads(old(host.files), id, old(concurrent), 2))
        && (!host.writeFault ==> r == Ok(true)
                                 && host.files == AfterReads(old(host.files), id, old(concurrent), 2)[id := LockEntry(prid, now)])
    {
      ghost var files0, pending0 := host.files, concurrent;
      var free := IsFree();
      if free.Err? {
        return Err(free.error);
      }
      if !free.value {
        return Ok(false);
      }
      var valid := IsValid(isIso);
      AfterReadsStep(files0, id, pending0, 1);
      if !valid.value {
        return Ok(false);
      }
      var data := SlotData(Some(prid), Some(now));
      var err := Write(data.ToString());
      if err.Some? {
        return Err(err.value);
      }
      return Ok(true);
    }

    /**
     * `unlock`: a free slot needs nothing; refuse invalid content and a
     * slot held by another run, each judged on a fresh read; otherwise
     * empty the file.
     */
    method Unlock(prid: string, isIso: string -> bool) returns (r: Result<bool, HostError>)
      modifies this`concurrent, host`files
      ensures host.readFault ==> r == Err(SlotReadError) && ReadsDone(1)
      ensures !host.readFault && IsFreeText(Seen(1)) ==> r == Ok(true) && ReadsDone(1)
      ensures !host.readFault && !IsFreeText(Seen(1)) && !ValidText(Seen(2), isIso) ==>
        r == Ok(false) && ReadsDone(2)
      ensures !host.readFault && !IsFreeText(Seen(1)) && ValidText(Seen(2), isIso) && !LockedByText(Seen(3), prid) ==>
        r == Ok(false) && ReadsDone(3)
      ensures !host.readFault && !IsFreeText(Seen(1)) && ValidText(Seen(2), isIso) && LockedByText(Seen(3), prid) ==>
        && concurrent == Drop(old(concurrent), 3)
        && (host.writeFault ==> r == Err(SlotWriteError)
                                && host.files == AfterReads(old(host.files), id, old(concurrent), 3))
        && (!host.writeFault ==> r == Ok(true)
                                 && host.files == AfterReads(old(host.files), id, old(concurrent), 3)[id := ""])
    {
      ghost var files0, pending0 := host.files, concurrent;
      var free := IsFree();
      if free.Err? {
        return Err(free.error);
      }
      if free.value {
        return Ok(true);
      }
      var valid := IsValid(isIso);
      AfterReadsStep(files0, id, pending0, 1);
      if !valid.value {
        return Ok(false);
      }
      var held := IsLockedBy(prid);
      AfterReadsStep(files0, id, pending0, 2);
      if !held.value {
        return Ok(false);
      }
      var err := Write("");
      if err.Some? {
        return Err(err.value);
      }
      return Ok(true);
    }
  }

  /** A slot held for a pipeline run (`LockedResource`). */
  class LockedResource {
    const host: RemoteHost
    const slot: int
    const prid: string

    constructor (host: RemoteHost, slot: int, prid: string)
      ensures this.host == host && this.slot == slot && this.prid == prid
    {
      this.host := host;
      this.slot := slot;
      this.prid := prid;
    }

    /** `unlock`: give the slot back; the outcome is discarded, so only the slot file tells. */
    method Unlock(isIso: string -> bool, acquired: bool)
      modifies host`files
      ensures host.files == if acquired && host.CanRelease(old(host.files), slot, prid, isIso)
                            then old(host.files)[slot := ""] else old(host.files)
    {
      var _ := host.Unlock(slot, prid, isIso, acquired, []);
    }
  }

  /** The keys of one host's entry in the remote-hosts configuration that `from_config` reads. */
  datatype HostConfig = HostConfig(enabled: Option<bool>, username: Option<string>,
                                   auth: Option<string>, slots: Option<int>)

  /** The constructor arguments of one `RemoteHost`. */
  datatype HostSpec = HostSpec(hostname: string, username: string, sshKeyfile: string, slots: int)

  predicate Enabled(attr: HostConfig)
  {
    attr.enabled == Some(true)
  }

  /** An enabled entry has the keys `from_config` indexes without a default. */
  predicate Complete(attr: HostConfig)
  {
    attr.username.Some? && attr.auth.Some?
  }

  /** The host an enabled, complete entry describes; slots default to 1. */
  function SpecOf(hostname: string, attr: HostConfig): HostSpec
    requires Complete(attr)
  {
    HostSpec(hostname, attr.username.value, attr.auth.value,
             if attr.slots.Some? then attr.slots.value else 1)
  }

  /**
   * The hosts `from_config` keeps, in configuration order: the enabled,
   * operational entries. The first enabled entry without a username or
   * auth key raises KeyError.
   */
  function SelectHosts(config: seq<(string, HostConfig)>, operational: string -> bool): Result<seq<HostSpec>, HostError>
    decreases |config|
  {
    if config == [] then Ok([])
    else
      var prefix := SelectHosts(config[..|config| - 1], operational);
      var (hostname, attr) := config[|config| - 1];
      if prefix.Err? || !Enabled(attr) then prefix
      else if attr.username.None? then Err(ConfigKeyError("username"))
      else if attr.auth.None? then Err(ConfigKeyError("auth"))
      else if operational(hostname) then Ok(prefix.value + [SpecOf(hostname, attr)])
      else prefix
  }

  /**
   * Set-up fails exactly when some enabled entry lacks a required key;
   * otherwise the kept hosts are exactly the enabled, operational entries.
   */
  lemma {:induction false} SelectHostsSpec(config: seq<(string, HostConfig)>, operational: string -> bool)
    ensures SelectHosts(config, operational).Err? <==>
      exists j :: 0 <= j < |config| && Enabled(config[j].1) && !Complete(config[j].1)
    ensures SelectHosts(config, operational).Err? ==>
      SelectHosts(config, operational).error in {ConfigKeyError("username"), ConfigKeyError("auth")}
    ensures SelectHosts(config, operational).Ok? ==>
      var kept := SelectHosts(config, operational).value;
      && |kept| <= |config|
      && (forall spec :: spec in kept <==>
            exists j :: 0 <= j < |config| && Enabled(config[j].1) && Complete(config[j].1)
                        && operational(config[j].0) && spec == SpecOf(config[j].0, config[j].1))
    decreases |config|
  {
    if config != [] {
      var init := config[..|config| - 1];
      SelectHostsSpec(init, operational);
      assert forall j :: 0 <= j < |init| ==> init[j] == config[j];
      var last := |config| - 1;
      if SelectHosts(config, operational).Ok? {
        var kept := SelectHosts(config, operational).value;
        forall spec
          ensures spec in kept <==>
            exists j :: 0 <= j < |config| && Enabled(config[j].1) && Complete(config[j].1)
                        && operational(config[j].0) && spec == SpecOf(config[j].0, config[j].1)
        {
          if spec in kept && spec !in SelectHosts(init, operational).value {
            assert Enabled(config[last].1) && Complete(config[last].1) && operational(config[last].0);
            assert spec == SpecOf(config[last].0, config[last].1);
          }
        }
      }
    }
  }

  /** A prefix's configuration error is the whole configuration's. */
  lemma {:induction false} SelectHostsErrorPersists(config: seq<(string, HostConfig)>, n: nat, operational: string -> bool)
    requires n <= |config|
    requires SelectHosts(config[..n], operational).Err?
    ensures SelectHosts(config, operational) == SelectHosts(config[..n], operational)
    decreases |config| - n
  {
    if n < |config| {
      assert config[..n + 1][..n] == config[..n];
      SelectHostsErrorPersists(config, n + 1, operational);
    } else {
      assert config[..n] == config;
    }
  }

  /** `hosts` were built from `specs`, one for one. */
  predicate Built(hosts: seq<RemoteHost>, specs: seq<HostSpec>)
  {
    |hosts| == |specs|
    && forall i :: 0 <= i < |hosts| ==>
         HostSpec(hosts[i].hostname, hosts[i].username, hosts[i].sshKeyfile, hosts[i].slots) == specs[i]
  }

  /** A host together with its free slots, in the order they will be tried. */
  datatype Resource = Resource(host: RemoteHost, slots: seq<int>)

  /** The share `free / total`, computed exactly rather than in floating point. */
  function RatioOf(free: int, total: int): real
    requires total > 0
  {
    (free as real) / (total as real)
  }

  /** The sort key of `lock_resource`: the share of the host's slots that is free. */
  function Ratio(e: Resource): real
    requires e.host.slots > 0
  {
    RatioOf(|e.slots|, e.host.slots)
  }

  predicate AllPositive(rs: seq<Resource>)
  {
    forall i :: 0 <= i < |rs| ==> rs[i].host.slots > 0
  }

  predicate SortedByRatio(rs: seq<Resource>)
  {
    AllPositive(rs) && forall i, j :: 0 <= i < j < |rs| ==> Ratio(rs[i]) >= Ratio(rs[j])
  }

  /** Insert `x` before the first entry with a smaller ratio, so `x` stays ahead of entries with an equal one. */
  function Insert(x: Resource, rs: seq<Resource>): (r: seq<Resource>)
    requires x.host.slots > 0 && SortedByRatio(rs)
    ensures SortedByRatio(r)
    ensures |r| == |rs| + 1
    ensures r[0] == x || (rs != [] && r[0] == rs[0])
    decreases |rs|
  {
    if rs == [] || Ratio(x) >= Ratio(rs[0]) then [x] + rs
    else
      var rest := Insert(x, rs[1..]);
      var r := [rs[0]] + rest;
      assert AllPositive(r) by {
        forall i | 0 <= i < |r| ensures r[i].host.slots > 0 {
          if i > 0 { assert r[i] == rest[i - 1]; }
        }
      }
      assert forall i, j :: 0 <= i < j < |r| ==> Ratio(r[i]) >= Ratio(r[j]) by {
        forall i, j | 0 <= i < j < |r| ensures Ratio(r[i]) >= Ratio(r[j]) {
          assert r[j] == rest[j - 1];
          if i > 0 { assert r[i] == rest[i - 1]; }
          else if j > 1 { assert Ratio(rest[0]) >= Ratio(rest[j - 1]); }
        }
      }
      r
  }

  /** Inserting adds exactly `x`. */
  lemma {:induction false} InsertPermutes(x: Resource, rs: seq<Resource>)
    requires x.host.slots > 0 && SortedByRatio(rs)
    ensures multiset(Insert(x, rs)) == multiset(rs) + multiset{x}
    decreases |rs|
  {
    if rs != [] && Ratio(x) < Ratio(rs[0]) {
      InsertPermutes(x, rs[1..]);
      assert rs == [rs[0]] + rs[1..];
    }
  }

  /** `resources.sort(key=ratio, reverse=True)`: a stable sort by descending ratio (see `SortPermutes`). */
  function SortByRatio(rs: seq<Resource>): (r: seq<Resource>)
    requires AllPositive(rs)
    ensures SortedByRatio(r)
    decreases |rs|
  {
    if rs == [] then []
    else
      assert AllPositive(rs[1..]) by {
        forall i | 0 <= i < |rs| - 1 ensures rs[1..][i].host.slots > 0 { assert rs[1..][i] == rs[i + 1]; }
      }
      Insert(rs[0], SortByRatio(rs[1..]))
  }

  /** Sorting only reorders the entries. */
  lemma {:induction false} SortPermutes(rs: seq<Resource>)
    requires AllPositive(rs)
    ensures multiset(SortByRatio(rs)) == multiset(rs)
    decreases |rs|
  {
    if rs != [] {
      var tail := rs[1..];
      assert AllPositive(tail) by {
        forall i | 0 <= i < |tail| ensures tail[i].host.slots > 0 { assert tail[i] == rs[i + 1]; }
      }
      SortPermutes(tail);
      InsertPermutes(rs[0], SortByRatio(tail));
      assert rs == [rs[0]] + tail;
    }
  }

  /** An entry ranked after position `k` of a sorted list has a ratio no larger than entry `k`'s. */
  lemma {:induction false} HigherRatioFirst(sorted: seq<Resource>, k: nat, e: Resource)
    requires SortedByRatio(sorted) && k < |sorted| && e in sorted
    requires e.host.slots > 0 && Ratio(e) > Ratio(sorted[k])
    ensures exists p :: 0 <= p < k && sorted[p] == e
  {
    var p :| 0 <= p < |sorted| && sorted[p] == e;
    assert p < k;
  }


  /** Slot `slotId` of `host`, whose slot files hold `files`, is one a lock attempt obtains. */
  predicate Lockable(host: RemoteHost, files: map<int, string>, slotId: int,
                     isIso: string -> bool, acquired: (string, int) -> bool)
  {
    acquired(host.hostname, slotId) && host.CanLock(files, slotId, isIso)
  }

  /** The share of the host's slots that is free when its slot files hold `files`. */
  function FreeRatio(host: RemoteHost, files: map<int, string>): real
    requires host.slots > 0
  {
    RatioOf(|FreeIds(files, host.slots)|, host.slots)
  }

  /** The entry `lock_resource` collects for a host with free slots whose slot files hold `files`. */
  predicate Collected(e: Resource, files: map<int, string>)
  {
    e.host.slots > 0 && e.slots != [] && multiset(e.slots) == multiset(FreeIds(files, e.host.slots))
  }

  /** Every lockable slot of a host is listed in the entry collected for that host. */
  lemma {:induction false} Covered(hosts: seq<RemoteHost>, sorted: seq<Resource>, snap: map<RemoteHost, map<int, string>>,
                h: RemoteHost, s: int, isIso: string -> bool, acquired: (string, int) -> bool)
    requires forall e :: e in sorted ==> e.host in snap && Collected(e, snap[e.host])
    requires forall x :: x in hosts && x in snap && FreeIds(snap[x], x.slots) != [] ==>
      exists e :: e in sorted && e.host == x
    requires h in hosts && h in snap && Lockable(h, snap[h], s, isIso, acquired)
    ensures exists p :: 0 <= p < |sorted| && sorted[p].host == h && s in sorted[p].slots
  {
    FreeIdsMembers(snap[h], h.slots);
    assert s in FreeIds(snap[h], h.slots);
    var e :| e in sorted && e.host == h;
    assert s in multiset(e.slots);
    var p :| 0 <= p < |sorted| && sorted[p] == e;
  }

  /** The host of each entry, in order. */
  function HostList(rs: seq<Resource>): (r: seq<RemoteHost>)
    ensures |r| == |rs| && forall m :: 0 <= m < |rs| ==> r[m] == rs[m].host
  {
    if rs == [] then [] else HostList(rs[..|rs| - 1]) + [rs[|rs| - 1].host]
  }

  /** None of the first `i` hosts fails to read its slots. */
  ghost predicate ReadableUpTo(hosts: seq<RemoteHost>, i: nat)
    requires i <= |hosts|
    reads set h | h in hosts
  {
    forall k :: 0 <= k < i ==> !(hosts[k].readFault && hosts[k].slots > 0)
  }

  /** Every entry lists the free slots of one of `hosts`. */
  ghost predicate EntriesFree(hosts: seq<RemoteHost>, resources: seq<Resource>)
    reads set h | h in hosts
  {
    forall m :: 0 <= m < |resources| ==>
      resources[m].host in hosts && Collected(resources[m], resources[m].host.files)
  }

  /** Every one of the first `i` hosts with a free slot has an entry. */
  ghost predicate CoveredUpTo(hosts: seq<RemoteHost>, i: nat, resources: seq<Resource>)
    requires i <= |hosts|
    reads set h | h in hosts
  {
    forall k :: 0 <= k < i && FreeIds(hosts[k].files, hosts[k].slots) != [] ==>
      hosts[k] in HostList(resources)
  }

  /** `resources` is what collecting the first `i` hosts yields. */
  ghost predicate Gathered(hosts: seq<RemoteHost>, i: nat, resources: seq<Resource>)
    requires i <= |hosts|
    reads set h | h in hosts
  {
    ReadableUpTo(hosts, i) && EntriesFree(hosts, resources) && CoveredUpTo(hosts, i, resources)
  }

  /** Collecting one more host keeps `Gathered`. */
  lemma {:induction false} GatheredStep(hosts: seq<RemoteHost>, i: nat, resources: seq<Resource>, entry: Option<Resource>)
    requires i < |hosts| && Gathered(hosts, i, resources)
    requires !(hosts[i].readFault && hosts[i].slots > 0)
    requires entry.None? ==> FreeIds(hosts[i].files, hosts[i].slots) == []
    requires entry.Some? ==> entry.value.host == hosts[i] && Collected(entry.value, hosts[i].files)
    ensures Gathered(hosts, i + 1, if entry.Some? then resources + [entry.value] else resources)
  {
    assert ReadableUpTo(hosts, i + 1);
    EntriesFreeStep(hosts, resources, entry);
    CoveredStep(hosts, i, resources, entry);
  }

  lemma {:induction false} EntriesFreeStep(hosts: seq<RemoteHost>, resources: seq<Resource>, entry: Option<Resource>)
    requires EntriesFree(hosts, resources)
    requires entry.Some? ==> entry.value.host in hosts && Collected(entry.value, entry.value.host.files)
    ensures EntriesFree(hosts, if entry.Some? then resources + [entry.value] else resources)
  {
  }

  lemma {:induction false} CoveredStep(hosts: seq<RemoteHost>, i: nat, resources: seq<Resource>, entry: Option<Resource>)
    requires i < |hosts| && CoveredUpTo(hosts, i, resources)
    requires entry.None? ==> FreeIds(hosts[i].files, hosts[i].slots) == []
    requires entry.Some? ==> entry.value.host == hosts[i]
    ensures CoveredUpTo(hosts, i + 1, if entry.Some? then resources + [entry.value] else resources)
  {
    if entry.Some? {
      assert HostList(resources + [entry.value]) == HostList(resources) + [hosts[i]];
    }
  }

  /** Once every host is collected, each host with a free slot has an entry. */
  lemma {:induction false} GatheredAll(hosts: seq<RemoteHost>, resources: seq<Resource>)
    requires Gathered(hosts, |hosts|, resources)
    ensures forall h :: h in hosts ==> !(h.readFault && h.slots > 0)
    ensures forall m :: 0 <= m < |resources| ==>
      resources[m].host in hosts && Collected(resources[m], resources[m].host.files)
    ensures forall h :: h in hosts && FreeIds(h.files, h.slots) != [] ==>
      exists m :: 0 <= m < |resources| && resources[m].host == h
  {
    forall h | h in hosts && FreeIds(h.files, h.slots) != []
      ensures exists m :: 0 <= m < |resources| && resources[m].host == h
    {
      var k :| 0 <= k < |hosts| && hosts[k] == h;
      assert h in HostList(resources);
    }
  }

  /** In a ranked list, an entry with a strictly larger share of free slots comes first. */
  lemma {:induction false} RatioOrder(rs: seq<Resource>, i: nat, j: nat)
    requires SortedByRatio(rs) && i < |rs| && j < |rs| && Ratio(rs[i]) < Ratio(rs[j])
    ensures j < i
  {
  }

  /** A lockable slot on a host with a larger share of free slots than entry `k`'s is listed before entry `k`. */
  lemma {:induction false} RankedAhead(hosts: seq<RemoteHost>, sorted: seq<Resource>, snap: map<RemoteHost, map<int, string>>,
                    k: nat, h: RemoteHost, s: int, isIso: string -> bool, acquired: (string, int) -> bool)
    requires SortedByRatio(sorted) && k < |sorted|
    requires forall e :: e in sorted ==> e.host in snap && Collected(e, snap[e.host])
    requires forall x :: x in hosts && x in snap && FreeIds(snap[x], x.slots) != [] ==>
      exists e :: e in sorted && e.host == x
    requires h in hosts && h in snap && h.slots > 0 && FreeRatio(h, snap[h]) > Ratio(sorted[k])
    requires Lockable(h, snap[h], s, isIso, acquired)
    ensures exists p :: 0 <= p < k && sorted[p].host == h && s in sorted[p].slots
  {
    Covered(hosts, sorted, snap, h, s, isIso, acquired);
    var p :| 0 <= p < |sorted| && sorted[p].host == h && s in sorted[p].slots;
    assert sorted[p] in sorted;
    assert |sorted[p].slots| == |FreeIds(snap[h], h.slots)| by {
      assert |multiset(sorted[p].slots)| == |multiset(FreeIds(snap[h], h.slots))|;
    }
    assert Ratio(sorted[p]) == FreeRatio(h, snap[h]);
    RatioOrder(sorted, k, p);
  }

  /** Every lockable slot of a host of `hosts` is listed in some entry of `sorted`. */
  ghost predicate CoveredAll(hosts: seq<RemoteHost>, sorted: seq<Resource>, snap: map<RemoteHost, map<int, string>>,
                       isIso: string -> bool, acquired: (string, int) -> bool)
  {
    forall h, s :: h in hosts && h in snap && Lockable(h, snap[h], s, isIso, acquired) ==>
      exists p :: 0 <= p < |sorted| && sorted[p].host == h && s in sorted[p].slots
  }

  /** Every lockable slot of a host with a larger share of free slots than entry `k`'s is listed before entry `k`. */
  ghost predicate RankedBefore(hosts: seq<RemoteHost>, sorted: seq<Resource>, snap: map<RemoteHost, map<int, string>>,
                         k: int, isIso: string -> bool, acquired: (string, int) -> bool)
  {
    0 <= k < |sorted| && sorted[k].host.slots > 0
    && forall h, s :: h in hosts && h in snap && h.slots > 0 && FreeRatio(h, snap[h]) > Ratio(sorted[k])
                      && Lockable(h, snap[h], s, isIso, acquired) ==>
         exists p :: 0 <= p < k && sorted[p].host == h && s in sorted[p].slots
  }

  /** No slot listed in the first `k` entries is lockable. */
  ghost predicate NoneLockableBefore(sorted: seq<Resource>, snap: map<RemoteHost, map<int, string>>, k: int,
                               isIso: string -> bool, acquired: (string, int) -> bool)
  {
    forall p, s :: 0 <= p < k && p < |sorted| && s in sorted[p].slots ==>
      sorted[p].host in snap && !Lockable(sorted[p].host, snap[sorted[p].host], s, isIso, acquired)
  }

  /**
   * What collecting and ranking guarantee about the entries `lock_resource`
   * tries, where `snap` holds each host's slot files: every lockable slot
   * is listed, and listed behind no host with a smaller share of free slots.
   */
  lemma {:induction false} SortedCoverage(hosts: seq<RemoteHost>, resources: seq<Resource>, sorted: seq<Resource>,
                       snap: map<RemoteHost, map<int, string>>, isIso: string -> bool, acquired: (string, int) -> bool)
    requires AllPositive(resources) && sorted == SortByRatio(resources)
    requires forall h :: h in hosts ==> h in snap
    requires forall m :: 0 <= m < |resources| ==>
      resources[m].host in hosts && Collected(resources[m], snap[resources[m].host])
    requires forall h :: h in hosts && FreeIds(snap[h], h.slots) != [] ==>
      exists m :: 0 <= m < |resources| && resources[m].host == h
    ensures forall e :: e in sorted ==>
      e.host in hosts && Collected(e, snap[e.host]) && Ratio(e) == FreeRatio(e.host, snap[e.host])
    ensures CoveredAll(hosts, sorted, snap, isIso, acquired)
    ensures forall k :: 0 <= k < |sorted| ==> RankedBefore(hosts, sorted, snap, k, isIso, acquired)
  {
    SortPermutes(resources);
    forall e | e in sorted
      ensures e.host in hosts && Collected(e, snap[e.host]) && Ratio(e) == FreeRatio(e.host, snap[e.host])
    {
      assert e in multiset(resources);
      assert |e.slots| == |FreeIds(snap[e.host], e.host.slots)| by {
        assert |multiset(e.slots)| == |multiset(FreeIds(snap[e.host], e.host.slots))|;
      }
    }
    forall x | x in hosts && x in snap && FreeIds(snap[x], x.slots) != []
      ensures exists e :: e in sorted && e.host == x
    {
      var m :| 0 <= m < |resources| && resources[m].host == x;
      assert resources[m] in multiset(sorted);
    }
    forall h, s | h in hosts && h in snap && Lockable(h, snap[h], s, isIso, acquired)
      ensures exists p :: 0 <= p < |sorted| && sorted[p].host == h && s in sorted[p].slots
    {
      Covered(hosts, sorted, snap, h, s, isIso, acquired);
    }
    forall k | 0 <= k < |sorted|
      ensures RankedBefore(hosts, sorted, snap, k, isIso, acquired)
    {
      assert sorted[k] in sorted;
      forall h, s | h in hosts && h in snap && h.slots > 0 && FreeRatio(h, snap[h]) > Ratio(sorted[k])
                    && Lockable(h, snap[h], s, isIso, acquired)
        ensures exists p :: 0 <= p < k && sorted[p].host == h && s in sorted[p].slots
      {
        RankedAhead(hosts, sorted, snap, k, h, s, isIso, acquired);
      }
    }
  }

  /** When every listed slot was tried in vain, no host has a lockable slot. */
  lemma {:induction false} NothingLockable(hosts: seq<RemoteHost>, sorted: seq<Resource>, snap: map<RemoteHost, map<int, string>>,
                        isIso: string -> bool, acquired: (string, int) -> bool)
    requires CoveredAll(hosts, sorted, snap, isIso, acquired)
    requires NoneLockableBefore(sorted, snap, |sorted|, isIso, acquired)
    ensures forall h, s :: h in hosts && h in snap ==> !Lockable(h, snap[h], s, isIso, acquired)
  {
    forall h, s | h in hosts && h in snap
      ensures !Lockable(h, snap[h], s, isIso, acquired)
    {
    }
  }

  /** When entry `k` holds the first lockable slot, no host with a larger share of free slots has a lockable slot. */
  lemma {:induction false} FirstLockableIsBest(hosts: seq<RemoteHost>, sorted: seq<Resource>, snap: map<RemoteHost, map<int, string>>,
                            k: int, isIso: string -> bool, acquired: (string, int) -> bool)
    requires RankedBefore(hosts, sorted, snap, k, isIso, acquired)
    requires NoneLockableBefore(sorted, snap, k, isIso, acquired)
    ensures forall h, s :: h in hosts && h in snap && h.slots > 0 && FreeRatio(h, snap[h]) > Ratio(sorted[k]) ==>
      !Lockable(h, snap[h], s, isIso, acquired)
  {
    forall h, s | h in hosts && h in snap && h.slots > 0 && FreeRatio(h, snap[h]) > Ratio(sorted[k])
      ensures !Lockable(h, snap[h], s, isIso, acquired)
    {
    }
  }

  class RemoteHostsPool {
    const hosts: seq<RemoteHost>

    constructor (hosts: seq<RemoteHost>)
      ensures this.hosts == hosts
    {
      this.hosts := hosts;
    }

    /**
     * `from_config`: a pool of fresh hosts, one per enabled, operational
     * entry, in configuration order; `slotFiles` gives each host's slot
     * files as they are on the host, `faults` its read and write fault flags.
     */
    static method FromConfig(config: seq<(string, HostConfig)>, operational: string -> bool,
                             slotFiles: string -> map<int, string>, faults: string -> (bool, bool))
      returns (r: Result<RemoteHostsPool, HostError>)
      ensures SelectHosts(config, operational).Err? ==> r == Err(SelectHosts(config, operational).error)
      ensures SelectHosts(config, operational).Ok? ==>
        && r.Ok? && fresh(r.value)
        && Built(r.value.hosts, SelectHosts(config, operational).value)
        && (forall h :: h in r.value.hosts ==> fresh(h))
        && (forall h :: h in r.value.hosts ==>
              h.files == slotFiles(h.hostname) && (h.readFault, h.writeFault) == faults(h.hostname))
    {
      var hosts: seq<RemoteHost> := [];
      var i := 0;
      while i < |config|
        invariant 0 <= i <= |config|
        invariant SelectHosts(config[..i], operational).Ok?
        invariant Built(hosts, SelectHosts(config[..i], operational).value)
        invariant forall h :: h in hosts ==> fresh(h)
        invariant forall h :: h in hosts ==>
          h.files == slotFiles(h.hostname) && (h.readFault, h.writeFault) == faults(h.hostname)
      {
        var (hostname, attr) := config[i];
        assert config[..i + 1][..i] == config[..i];
        if Enabled(attr) {
          if attr.username.None? {
            SelectHostsErrorPersists(config, i + 1, operational);
            return Err(ConfigKeyError("username"));
          }
          if attr.auth.None? {
            SelectHostsErrorPersists(config, i + 1, operational);
            return Err(ConfigKeyError("auth"));
          }
          var slots := if attr.slots.Some? then attr.slots.value else 1;
          var host := new RemoteHost(hostname, attr.username.value, attr.auth.value, slots,
                                     slotFiles(hostname), faults(hostname).0, faults(hostname).1);
          if operational(hostname) {
            hosts := hosts + [host];
          }
        }
        i := i + 1;
      }
      assert config[..i] == config;
      var pool := new RemoteHostsPool(hosts);
      return Ok(pool);
    }

    /**
     * One host's part of `lock_resource`'s first half: its free slots in
     * some random order, or nothing when none is free.
     */
    static method CollectHost(host: RemoteHost) returns (r: Result<Option<Resource>, HostError>)
      ensures r.Err? <==> host.readFault && host.slots > 0
      ensures r.Err? ==> r.error == SlotReadError
      ensures r.Ok? && r.value.None? ==> FreeIds(host.files, host.slots) == []
      ensures r.Ok? && r.value.Some? ==> r.value.value.host == host && Collected(r.value.value, host.files)
      ensures r.Ok? && FreeIds(host.files, host.slots) != [] ==> r.value.Some?
    {
      var available := host.AvailableSlots();
      if available.Err? {
        return Err(available.error);
      }
      if available.value == [] {
        return Ok(None);
      }
      // random.shuffle: any reordering
      var shuffled :| multiset(shuffled) == multiset(available.value);
      assert shuffled != [] by {
        assert available.value[0] in multiset(shuffled);
      }
      return Ok(Some(Resource(host, shuffled)));
    }

    /**
     * The first half of `lock_resource`: each host with free slots, with
     * its free slots in some random order; a read error propagates.
     */
    method CollectResources() returns (r: Result<seq<Resource>, HostError>)
      ensures r.Err? <==> exists h :: h in hosts && h.readFault && h.slots > 0
      ensures r.Err? ==> r.error == SlotReadError
      ensures r.Ok? ==> forall m :: 0 <= m < |r.value| ==>
        r.value[m].host in hosts && Collected(r.value[m], r.value[m].host.files)
      ensures r.Ok? ==> forall h :: h in hosts && FreeIds(h.files, h.slots) != [] ==>
        exists m :: 0 <= m < |r.value| && r.value[m].host == h
    {
      var resources: seq<Resource> := [];
      var i := 0;
      while i < |hosts|
        invariant 0 <= i <= |hosts|
        invariant Gathered(hosts, i, resources)
      {
        var entry := CollectHost(hosts[i]);
        if entry.Err? {
          return Err(entry.error);
        }
        GatheredStep(hosts, i, resources, entry.value);
        if entry.value.Some? {
          resources := resources + [entry.value.value];
        }
        i := i + 1;
      }
      GatheredAll(hosts, resources);
      return Ok(resources);
    }

    /**
     * The second half of `lock_resource`: try the slots of `sorted` in
     * order and stop at the first that locks; `snap` holds each host's
     * slot files.
     */
    method TryLock(sorted: seq<Resource>, ghost snap: map<RemoteHost, map<int, string>>, prid: string, now: string,
                   isIso: string -> bool, acquired: (string, int) -> bool)
      returns (found: Option<LockedResource>)
      requires forall e :: e in sorted ==> e.host in hosts
      requires forall h :: h in hosts ==> h in snap && h.files == snap[h]
      modifies (set h | h in hosts)`files
      ensures found.None? ==> forall h :: h in hosts ==> h.files == snap[h]
      ensures found.None? ==> NoneLockableBefore(sorted, snap, |sorted|, isIso, acquired)
      ensures found.Some? ==>
        var lr := found.value;
        var host, slot := lr.host, lr.slot;
        && fresh(lr) && lr.prid == prid && host in hosts
        && (exists k, j :: 0 <= k < |sorted| && 0 <= j < |sorted[k].slots|
              && sorted[k].host == host && sorted[k].slots[j] == slot
              && NoneLockableBefore(sorted, snap, k, isIso, acquired)
              && forall q :: 0 <= q < j ==> !Lockable(host, snap[host], sorted[k].slots[q], isIso, acquired))
        && Lockable(host, snap[host], slot, isIso, acquired)
        && host.files == snap[host][slot := LockEntry(prid, now)]
        && (forall h :: h in hosts && h != host ==> h.files == snap[h])
    {
      var k := 0;
      while k < |sorted|
        invariant 0 <= k <= |sorted|
        invariant forall h :: h in hosts ==> h.files == snap[h]
        invariant NoneLockableBefore(sorted, snap, k, isIso, acquired)
      {
        var res := sorted[k];
        assert res.host in hosts;
        var j := 0;
        while j < |res.slots|
          invariant 0 <= j <= |res.slots|
          invariant forall h :: h in hosts ==> h.files == snap[h]
          invariant forall q :: 0 <= q < j ==> !Lockable(res.host, snap[res.host], res.slots[q], isIso, acquired)
        {
          var slot := res.slots[j];
          var locked := res.host.Lock(slot, prid, now, isIso, acquired(res.host.hostname, slot), []);
          if locked {
            var lr := new LockedResource(res.host, slot, prid);
            return Some(lr);
          }
          j := j + 1;
        }
        k := k + 1;
      }
      return None;
    }

    /**
     * The ranking and locking part of `lock_resource`, for the collected
     * entries `resources`; `snap` holds each host's slot files.
     */
    method LockRanked(resources: seq<Resource>, ghost snap: map<RemoteHost, map<int, string>>, prid: string,
                      now: string, isIso: string -> bool, acquired: (string, int) -> bool)
      returns (found: Option<LockedResource>)
      requires forall h :: h in hosts ==> h in snap && h.files == snap[h]
      requires forall m :: 0 <= m < |resources| ==>
        resources[m].host in hosts && Collected(resources[m], snap[resources[m].host])
      requires forall h :: h in hosts && FreeIds(snap[h], h.slots) != [] ==>
        exists m :: 0 <= m < |resources| && resources[m].host == h
      modifies (set h | h in hosts)`files
      ensures found.None? ==> forall h :: h in hosts ==> h.files == snap[h]
      ensures found.None? ==> forall h, s :: h in hosts ==> !Lockable(h, snap[h], s, isIso, acquired)
      ensures found.Some? ==>
        var lr := found.value;
        var host, slot := lr.host, lr.slot;
        && fresh(lr) && host in hosts && lr.prid == prid && host.slots > 0
        && slot in FreeIds(snap[host], host.slots)
        && Lockable(host, snap[host], slot, isIso, acquired)
        && host.files == snap[host][slot := LockEntry(prid, now)]
        && (forall h :: h in hosts && h != host ==> h.files == snap[h])
        && (forall h, s :: h in hosts && h.slots > 0 && FreeRatio(h, snap[h]) > FreeRatio(host, snap[host]) ==>
              !Lockable(h, snap[h], s, isIso, acquired))
    {
      assert AllPositive(resources);
      var sorted := SortByRatio(resources);
      SortedCoverage(hosts, resources, sorted, snap, isIso, acquired);
      found := TryLock(sorted, snap, prid, now, isIso, acquired);
      if found.None? {
        NothingLockable(hosts, sorted, snap, isIso, acquired);
        return;
      }
      var lr := found.value;
      var host := lr.host;
      ghost var k, j :| 0 <= k < |sorted| && 0 <= j < |sorted[k].slots|
                        && sorted[k].host == host && sorted[k].slots[j] == lr.slot
                        && NoneLockableBefore(sorted, snap, k, isIso, acquired);
      assert sorted[k] in sorted;
      assert lr.slot in FreeIds(snap[host], host.slots) by {
        assert lr.slot in multiset(sorted[k].slots);
      }
      FirstLockableIsBest(hosts, sorted, snap, k, isIso, acquired);
    }

    /**
     * `lock_resource`: lock a free slot for `prid` on a host with the
     * largest share of free slots among those that can lock one; None when
     * there are no hosts, no free slots, or no slot locks.
     */
    method LockResource(prid: string, now: string, isIso: string -> bool, acquired: (string, int) -> bool)
      returns (r: Result<Option<LockedResource>, HostError>)
      modifies (set h | h in hosts)`files
      ensures hosts == [] ==> r == Ok(None)
      ensures r.Err? <==> exists h :: h in hosts && h.readFault && h.slots > 0
      ensures r.Err? ==> r.error == SlotReadError
      ensures r.Err? || r == Ok(None) ==> forall h :: h in hosts ==> h.files == old(h.files)
      ensures r == Ok(None) ==> forall h, s :: h in hosts ==> !Lockable(h, old(h.files), s, isIso, acquired)
      ensures r.Ok? && r.value.Some? ==>
        var lr := r.value.value;
        var host, slot := lr.host, lr.slot;
        && fresh(lr) && host in hosts && lr.prid == prid && host.slots > 0
        && slot in old(host.FreeSlots())
        && Lockable(host, old(host.files), slot, isIso, acquired)
        && host.files == old(host.files)[slot := LockEntry(prid, now)]
        && (forall h :: h in hosts && h != host ==> h.files == old(h.files))
        && (forall h, s :: h in hosts && h.slots > 0 && FreeRatio(h, old(h.files)) > FreeRatio(host, old(host.files)) ==>
              !Lockable(h, old(h.files), s, isIso, acquired))
    {
      ghost var snap := map h | h in hosts :: h.files;
      if hosts == [] {
        return Ok(None);
      }
      var collected := CollectResources();
      if collected.Err? {
        return Err(collected.error);
      }
      var resources := collected.value;
      if resources == [] {
        forall h, s | h in hosts
          ensures !Lockable(h, old(h.files), s, isIso, acquired)
        {
          FreeIdsMembers(h.files, h.slots);
        }
        return Ok(None);
      }
      var found := LockRanked(resources, snap, prid, now, isIso, acquired);
      return Ok(found);
    }
  }
}
