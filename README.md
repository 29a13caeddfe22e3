# atomic-reactor core, modelled in Dafny

This project models three pieces of atomic-reactor, the container build
tool, and proves properties of them.

- **Remote-host slot bookkeeping** is in `slot_data.dfy` and `remote_host.dfy`.
  A remote build host offers a fixed number of build slots. Slot `id` is a
  file `slot_{id}` in the host's slots directory.
  - An empty file means the slot is free. A pipeline run takes the slot by
    writing `prid@timestamp` and gives it back by emptying the file.
  - `SlotData` is the codec for that text.
  - `HostSlot.lock`/`unlock` are the state machine on the file.
  - `RemoteHost.available_slots` lists the free slots.
  - `RemoteHostsPool.from_config` builds the pool of usable hosts.
  - `lock_resource` locks the first lockable slot, trying hosts in
    descending order of their share of free slots.
- **The rpm query helpers** are in `rpm.dfy`. `rpm_qf_args` builds the
  `--qf` query format. `parse_rpm_output` turns the lines rpm prints into
  component records. It drops short lines and `gpg-pubkey` packages, maps
  `(none)` to absent, picks the signature and parses the epoch.
- **The `koji_parent` pre-build plugin** is in `koji_parent.dfy`. It forms
  the parent image's NVR (name-version-release) from its labels, asks Koji
  for a build of it until one exists or time runs out, and fails when none
  was found.

`wrappers.dfy` holds `Option`/`Result`. `text.dfy` models the Python string
operations the core relies on: `str.split`, `str.join`,
`str.split(sep, 1)`, `int()` and `str(int)` on decimal text, and
`os.path.join`.

How the environment is represented:

- **Remote-host I/O.** The SSH commands that read and write a slot file
  become the host's map `files` from slot id to file text, plus two fault
  flags (`readFault`, `writeFault`). A fault flag says the remote command
  fails.
- **Concurrent writers.** Other clients' writes to a slot file, one just
  before each of our reads, are the sequence `concurrent`/`others`.
- **Oracles.** These are parameters of the calls:
  - `isIso` stands for `datetime.fromisoformat` accepting a text.
  - `now` is the `utcnow().isoformat()` timestamp.
  - `acquired` is the outcome of acquiring the slot's `flock`.
  - `operational` stands for `is_operational`.
  - `slotFiles` gives each configured host's slot files as they are on the
    host, and `faults` gives its fault flags.
- **Random shuffle.** `random.shuffle` becomes an arbitrary permutation.
- **Koji.** Koji's `getBuild` replies are a sequence of optional build
  records: the replies that arrive before the polling timeout.

## Model

| member | source | states |
|---|---|---|
| SlotCodec.FromString | atomic_reactor/utils/remote_host.py:100-111 | None and "" decode to empty data with both fields None. Any other text gives both fields, neither containing "@". The prid is exactly the text before the first "@". The timestamp is the rest with every further "@" removed. Text without "@" gives the whole text as prid and "" as timestamp. |
| SlotCodec.SlotData.IsEmpty | atomic_reactor/utils/remote_host.py:113-115 | `is_empty`: neither field is truthy. `FreeTextIsOnlyAtSigns` states which texts decode to empty data. |
| SlotCodec.SlotData.IsValid | atomic_reactor/utils/remote_host.py:117-132 | `is_valid`: empty, or a prid without "@" and a timestamp the ISO oracle accepts. `FreeTextIsValid` and `LockEntryProperties` state its consequences. |
| SlotCodec.SlotData.ToString | atomic_reactor/utils/remote_host.py:134-137 | `to_string`: "" for empty data, else "prid@timestamp" with None rendered "None". `RoundTrip` and `DecodeEncodeDecode` relate it to `FromString`. |
| SlotCodec.SplitAtSign | atomic_reactor/utils/remote_host.py:108-110 | `split("@")[0]` is the text up to the first "@" and contains no "@". `"".join(values[1:])` is the remainder after that "@" with all "@" removed. Text without "@" gives the whole text and "". |
| SlotCodec.RoundTrip | atomic_reactor/utils/remote_host.py:100-111 | For a prid and timestamp without "@" that are not both "", `from_string(to_string(d))` gives back the same prid and timestamp. |
| SlotCodec.DecodeEncodeDecode | atomic_reactor/utils/remote_host.py:100-137 | Decoded data is a normal form. Empty data encodes as "". Non-empty data re-encodes to a text that decodes to the same data. |
| SlotCodec.FreeTextIsOnlyAtSigns | atomic_reactor/utils/remote_host.py:104-115 | A slot file reads as free exactly when every character of it is "@". In particular, the empty file reads as free. |
| SlotCodec.FreeTextIsValid | atomic_reactor/utils/remote_host.py:117-121 | Free content is valid content. |
| SlotCodec.LockEntryProperties | atomic_reactor/utils/remote_host.py:117-137 | Take the text `lock` writes for a prid and a non-empty timestamp, neither containing "@". It is not free, it is locked by that prid, and it is valid exactly when the timestamp is an ISO datetime. |
| RemoteHosts.Range | atomic_reactor/utils/remote_host.py:182 | `list(range(n))`: n entries, entry i is i, and no entries when n <= 0. |
| RemoteHosts.SlotsDir | atomic_reactor/utils/remote_host.py:176-178 | `slots_dir`: "osbs_slots" joined to the home directory. `SlotsDirEnd` states it is non-empty and does not end in "/". |
| RemoteHosts.RemoteHost.IsValidSlotId | atomic_reactor/utils/remote_host.py:180-187 | `_is_valid_slot_id`: 0 <= id < slots. `ValidSlotIdInRange` proves this is membership in `list(range(slots))`. |
| RemoteHosts.RemoteHost.SlotPath | atomic_reactor/utils/remote_host.py:189-191 | `_get_slot_path`: `slot_{id}` in the slots directory. `SlotPathsInjective` and `SlotLockPathShape` state its properties. |
| RemoteHosts.RemoteHost.SlotLockPath | atomic_reactor/utils/remote_host.py:193-195 | `_get_slot_lock_path`: `slot_{id}.lock` in the slots directory. `SlotPathsInjective` and `SlotLockPathShape` state its properties. |
| RemoteHosts.RemoteHost.ValidSlotIdInRange | atomic_reactor/utils/remote_host.py:180-187 | `_is_valid_slot_id(id)` holds exactly when id is in `list(range(slots))`, that is, when 0 <= id < slots. |
| RemoteHosts.RemoteHost.SlotPathsInjective | atomic_reactor/utils/remote_host.py:189-195 | Different slot ids get different slot-file paths and different lock-file paths. |
| RemoteHosts.RemoteHost.SlotLockPathShape | atomic_reactor/utils/remote_host.py:189-195 | A slot's lock path is its slot path plus ".lock". No slot path equals any slot's lock path. |
| RemoteHosts.FreeIdsMembers | atomic_reactor/utils/remote_host.py:412-422 | The listed ids are exactly the ids in `range(slots)` whose slot file reads as free. |
| RemoteHosts.FreeIdsAscending | atomic_reactor/utils/remote_host.py:412-422 | The listed ids are strictly ascending. |
| RemoteHosts.RemoteHost.constructor | atomic_reactor/utils/remote_host.py:146-157 | The host keeps its hostname, username, key file and slot count. Its slot files are whatever the host already holds (a parameter); nothing is written. |
| RemoteHosts.RemoteHost.IsFree | atomic_reactor/utils/remote_host.py:326-340 | An invalid id gives false without a read. Otherwise a read error raises SlotReadError, and a successful read gives whether the slot file reads as free. |
| RemoteHosts.RemoteHost.Lock | atomic_reactor/utils/remote_host.py:342-375 | An invalid id or a failed `flock` gives false with no file changed. Otherwise it succeeds exactly when there is no read or write fault, the first read sees a free slot and the second read sees valid content. Success leaves "prid@now" in the file. A read error, write error or lock error counts as false. With no concurrent writers: success exactly when the slot can be locked, and the file changes only on success. |
| RemoteHosts.RemoteHost.Unlock | atomic_reactor/utils/remote_host.py:377-410 | An invalid id or a failed `flock` gives false with no change. A slot seen free gives true with no write. Invalid content or another holder gives false with no write. A slot held by `prid` is emptied, and a write or read error counts as false. With no concurrent writers: the file is emptied exactly when the slot was releasable by `prid`. |
| RemoteHosts.RemoteHost.AvailableSlots | atomic_reactor/utils/remote_host.py:412-422 | A read error gives SlotReadError (the host has at least one slot). Otherwise the result is the list of free ids in `range(slots)`, ascending. The slot files are unchanged. |
| RemoteHosts.HostSlot.constructor | atomic_reactor/utils/remote_host.py:427-438 | The slot keeps its host, its id and the concurrent writes it will observe. |
| RemoteHosts.HostSlot.Read | atomic_reactor/utils/remote_host.py:459-472 | The next concurrent write lands first. Then the result is the file's text, or SlotReadError when the read command fails. |
| RemoteHosts.HostSlot.Write | atomic_reactor/utils/remote_host.py:474-489 | The file holds exactly `data` ("" truncates it). A write fault raises SlotWriteError and leaves the file as it was. |
| RemoteHosts.HostSlot.IsFree | atomic_reactor/utils/remote_host.py:440-443 | One fresh read. The result is whether that read's content decodes as empty, or SlotReadError. The same holds for lines 496-499. |
| RemoteHosts.HostSlot.IsValid | atomic_reactor/utils/remote_host.py:491-494 | One fresh read. The result is whether that content decodes as valid slot data, or SlotReadError. |
| RemoteHosts.HostSlot.IsLockedBy | atomic_reactor/utils/remote_host.py:501-503 | One fresh read. The result is whether that content's prid is `prid`, or SlotReadError. |
| RemoteHosts.HostSlot.Lock | atomic_reactor/utils/remote_host.py:505-519 | It refuses, after one read, a slot not free. It refuses, after a second read, invalid content. Otherwise it writes "prid@now" and returns true. Each test sees its own read, which is how concurrent writers reach the invalid-content branch. Errors propagate. |
| RemoteHosts.HostSlot.Unlock | atomic_reactor/utils/remote_host.py:521-540 | A slot free on the first read gives true with no write. Invalid content on the second read gives false. Another holder on the third read gives false. Otherwise it empties the file and returns true. Errors propagate. |
| RemoteHosts.LockedResource.constructor | atomic_reactor/utils/remote_host.py:545-554 | The resource keeps its host, slot and prid. |
| RemoteHosts.LockedResource.Unlock | atomic_reactor/utils/remote_host.py:556-558 | The slot file is emptied exactly when the `flock` is acquired and the slot is releasable by the resource's prid. Otherwise nothing changes. |
| RemoteHosts.SelectHosts | atomic_reactor/utils/remote_host.py:569-598 | The hosts `from_config` keeps, in configuration order, or the first KeyError. `SelectHostsSpec` characterises it. |
| RemoteHosts.RemoteHostsPool.constructor | atomic_reactor/utils/remote_host.py:563-567 | The pool keeps its host list. |
| RemoteHosts.SelectHostsSpec | atomic_reactor/utils/remote_host.py:570-598 | Set-up raises KeyError ("username" or "auth") exactly when some enabled entry lacks one of those keys. Otherwise the hosts kept are exactly the enabled, operational entries, with slots defaulting to 1. |
| RemoteHosts.SelectHostsErrorPersists | atomic_reactor/utils/remote_host.py:585-588 | The first KeyError raised on a prefix of the configuration is the whole configuration's outcome. |
| RemoteHosts.RemoteHostsPool.FromConfig | atomic_reactor/utils/remote_host.py:569-598 | It returns the KeyError of `SelectHosts`. Otherwise it returns a new pool of new hosts built one for one from the selected entries, in configuration order, each with the slot files and fault flags its host has. |
| RemoteHosts.RemoteHostsPool.CollectHost | atomic_reactor/utils/remote_host.py:611-622 | A host's entry lists its free slots in some order (a permutation of `available_slots`). There is no entry exactly when it has none. A read error propagates. |
| RemoteHosts.RemoteHostsPool.CollectResources | atomic_reactor/utils/remote_host.py:610-622 | It raises SlotReadError exactly when some host with slots cannot be read. Otherwise every entry holds one pool host's free slots, and every host with a free slot has an entry. |
| RemoteHosts.Insert | atomic_reactor/utils/remote_host.py:627-628 | Inserting into a list sorted by descending ratio keeps it sorted and adds one entry. |
| RemoteHosts.InsertPermutes | atomic_reactor/utils/remote_host.py:627-628 | Inserting adds exactly the inserted entry. |
| RemoteHosts.SortByRatio | atomic_reactor/utils/remote_host.py:627-628 | `sort(key=ratio, reverse=True)` yields a list in non-increasing free/total ratio. |
| RemoteHosts.SortPermutes | atomic_reactor/utils/remote_host.py:627-628 | The sort is a permutation of its input. |
| RemoteHosts.HigherRatioFirst | atomic_reactor/utils/remote_host.py:627-628 | In the sorted list, an entry with a larger ratio than entry k comes before k. |
| RemoteHosts.Covered | atomic_reactor/utils/remote_host.py:610-628 | Every lockable slot of every host appears in the entry of that host. |
| RemoteHosts.SortedCoverage | atomic_reactor/utils/remote_host.py:610-640 | Each sorted entry's ratio is its host's share of free slots. Every lockable slot is listed. Every lockable slot on a host with a larger share than entry k's is listed before k. |
| RemoteHosts.RankedAhead | atomic_reactor/utils/remote_host.py:627-640 | A lockable slot on a host with a larger share of free slots than entry k's is listed before k. |
| RemoteHosts.NothingLockable | atomic_reactor/utils/remote_host.py:630-644 | When every listed slot was tried in vain, no host has a lockable slot. |
| RemoteHosts.FirstLockableIsBest | atomic_reactor/utils/remote_host.py:630-641 | When entry k holds the first lockable slot, no host with a larger share of free slots has a lockable one. |
| RemoteHosts.RemoteHostsPool.TryLock | atomic_reactor/utils/remote_host.py:630-644 | Slots are tried in list order, and the first that locks is returned. That slot is lockable and is slot j of entry k for its host. No slot of an entry before k, and no slot before j in entry k, was lockable. Only its file changed (to "prid@now"). With no success, no file changed and no listed slot was lockable. |
| RemoteHosts.RemoteHostsPool.LockRanked | atomic_reactor/utils/remote_host.py:627-644 | The locked slot is one of its host's free slots, and no host with a larger share of free slots had a lockable slot. With no success, no slot anywhere was lockable and nothing changed. |
| RemoteHosts.RemoteHostsPool.LockResource | atomic_reactor/utils/remote_host.py:600-644 | No hosts gives None. A read error raises exactly when some host with slots cannot be read. None otherwise means no host had a lockable slot, with nothing changed. A returned resource is a free slot of a pool host, now holding "prid@now", with every other file unchanged, and no host with a larger share of free slots had a lockable slot. |
| Rpm.Directives | atomic_reactor/utils/rpm.py:49 | One `%{TAG}` directive per tag, in tag order. |
| Rpm.RpmQfArgs | atomic_reactor/utils/rpm.py:40-50 | `rpm_qf_args`. `RpmQfArgsFormat` and `RpmQfArgsDefault` state what it returns. |
| Rpm.RpmQfArgsFormat | atomic_reactor/utils/rpm.py:40-50 | The arguments are `-qa --qf '` + the directives joined by the separator + backslash-n + `'`. With a one-character separator found in no tag, splitting the format on it gives back each tag's directive. |
| Rpm.RpmQfArgsDefault | atomic_reactor/utils/rpm.py:10-23 | With no tags, the default twelve tags are used with ";". The format splits back into twelve directives. Covers lines 46-47 too. |
| Rpm.StripNewlines | atomic_reactor/utils/rpm.py:82 | `rstrip('\n')` gives a prefix of the line that does not end in a newline. Only newlines were removed. |
| Rpm.IndexOf | atomic_reactor/utils/rpm.py:70-72 | `tags.index(tag)`: absent exactly when the tag is not in the list. Otherwise it is the first position holding the tag. |
| Rpm.Field | atomic_reactor/utils/rpm.py:65-77 | The result is None exactly when the tag is not queried or its field is "(none)". Otherwise it is the field at the tag's first index, always in bounds on a long-enough line. |
| Rpm.FirstTruthySpec | atomic_reactor/utils/rpm.py:87-92 | An `or` chain yields its first truthy operand. With none, it yields its last operand. |
| Rpm.Signature | atomic_reactor/utils/rpm.py:86-96 | The signature of a line. `SignatureSpec` states which value it is. |
| Rpm.Epoch | atomic_reactor/utils/rpm.py:108-113 | The epoch of a line. `EpochSpec` and `EpochRoundTrip` state it. |
| Rpm.ParseLine | atomic_reactor/utils/rpm.py:81-116 | The outcome of one output line. `ParseLineSpec`, `LineRoundTrip` and `ParseRpmLine` state it. |
| Rpm.ParseAll | atomic_reactor/utils/rpm.py:79-118 | The components of all lines. The `Gather` lemmas and `ParseAllKinds` state it; `ParseRpmOutput` computes it. |
| Rpm.SignatureSpec | atomic_reactor/utils/rpm.py:86-96 | With no truthy signature tag, the RSAHEADER value is kept as is. Otherwise the first truthy one among SIGPGP, SIGGPG, DSAHEADER and RSAHEADER is taken. When it contains "Key ID ", it is cut to the text after the first occurrence. |
| Rpm.EpochSpec | atomic_reactor/utils/rpm.py:108-113 | A reading aid for `Epoch`, case by case: an absent epoch (or "(none)") gives None. A decimal integer text gives its value. Any other text raises. |
| Rpm.EpochRoundTrip | atomic_reactor/utils/rpm.py:108-111 | Every integer printed in decimal parses back to itself. |
| Rpm.ParseLineSpec | atomic_reactor/utils/rpm.py:81-116 | A reading aid for `ParseLine`, case by case; the substance is in `LineRoundTrip`, `SignatureSpec` and `EpochRoundTrip`. A short line yields nothing. A line raises exactly when it is long enough and its epoch is not an integer. A line yields nothing exactly when it is short or names `gpg-pubkey`. Otherwise the record has type "rpm" and the field values of NAME, VERSION, RELEASE, ARCH, SIGMD5, the signature and the epoch. |
| Rpm.ParseRpmLine | atomic_reactor/utils/rpm.py:82-116 | The loop body for one line computes exactly the line's specified outcome. |
| Rpm.ParseRpmOutput | atomic_reactor/utils/rpm.py:53-118 | The loop returns exactly the specified components of the output lines, in order, with the default tags when none are given. It raises the first line's error when a line raises. |
| Rpm.GatherErrorPersists | atomic_reactor/utils/rpm.py:81-84 | When a prefix of the output raises, the whole parse raises the same error. |
| Rpm.GatherLength | atomic_reactor/utils/rpm.py:81-84 | There are never more components than lines. |
| Rpm.GatherFrom | atomic_reactor/utils/rpm.py:81-116 | Every component is the record of some input line. |
| Rpm.GatherConcat | atomic_reactor/utils/rpm.py:79-118 | Parsing two blocks of lines succeeds exactly when both do, and yields their components concatenated in order. An error in the first block is the whole parse's outcome. |
| Rpm.GatherSingle | atomic_reactor/utils/rpm.py:81-116 | The parse of a single line is that line's outcome. |
| Rpm.ParseAllKinds | atomic_reactor/utils/rpm.py:98-116 | Every returned component has type "rpm" and is not `gpg-pubkey`. |
| Rpm.LineRoundTrip | atomic_reactor/utils/rpm.py:82 | A line of values joined by a one-character separator and ended by a newline splits back into exactly those values. |
| Text.Split | atomic_reactor/utils/remote_host.py:108 | `str.split` always gives at least one piece. |
| Text.SplitJoin | atomic_reactor/utils/rpm.py:82 | Splitting texts joined by a character none of them contains gives back the texts. |
| Text.ParseIntToString | atomic_reactor/utils/rpm.py:111 | `int(str(i)) == i` for every integer. |
| Text.IntToStringInjective | atomic_reactor/utils/remote_host.py:189-195 | Different integers print differently. |
| KojiParent.FoundValuesComplete | atomic_reactor/plugins/pre_koji_parent.py:79-91 | As many values as names are found exactly when every label is present. Then they are the labels' values, in order. |
| KojiParent.LabelsOf | atomic_reactor/plugins/pre_koji_parent.py:77 | `config['Labels'] or {}`. `NoLabelsNoNvr` states its consequence. |
| KojiParent.NvrOf | atomic_reactor/plugins/pre_koji_parent.py:79-97 | The NVR detection stores. `NvrOfSpec` characterises it. |
| KojiParent.NvrOfSpec | atomic_reactor/plugins/pre_koji_parent.py:79-97 | An NVR exists exactly when the component, version and release labels are all present. It is then exactly component + "-" + version + "-" + release. |
| KojiParent.NoLabelsNoNvr | atomic_reactor/plugins/pre_koji_parent.py:77 | Labels that are None or an empty map give no NVR. |
| KojiParent.FirstFound | atomic_reactor/plugins/pre_koji_parent.py:102-105 | It is the first reply that names a build. There is none exactly when no reply names a build. |
| KojiParent.AfterPolling | atomic_reactor/plugins/pre_koji_parent.py:99-106 | The build stored after the wait. `AfterPollingSpec` characterises it. |
| KojiParent.AfterPollingSpec | atomic_reactor/plugins/pre_koji_parent.py:99-106 | After at least one poll, the wait ends with a build exactly when some reply within the timeout names one. That build is the first such reply. |
| KojiParent.KojiParentPlugin.constructor | atomic_reactor/plugins/pre_koji_parent.py:64-66 | A new plugin has no NVR, no build and has asked Koji nothing. |
| KojiParent.KojiParentPlugin.DetectParentImageNvr | atomic_reactor/plugins/pre_koji_parent.py:75-97 | The loop stores the NVR of the labels, or None when a label is missing. It returns true exactly when an NVR was stored. |
| KojiParent.KojiParentPlugin.HasParentImageBuild | atomic_reactor/plugins/pre_koji_parent.py:114-116 | It asks Koji for the stored NVR, stores the reply, and returns true exactly when the reply names a build. |
| KojiParent.KojiParentPlugin.WaitForParentImageBuild | atomic_reactor/plugins/pre_koji_parent.py:99-106 | It asks Koji once per reply up to and including the first that names a build (or for every reply). It stores the last reply asked for, keeping the old build when none was asked. |
| KojiParent.KojiParentPlugin.VerifyParentImageBuild | atomic_reactor/plugins/pre_koji_parent.py:118-120 | It raises (BuildNotFound) exactly when no build is stored. |
| KojiParent.KojiParentPlugin.MakeResult | atomic_reactor/plugins/pre_koji_parent.py:122-125 | The result has the single key "parent-image-koji-build", mapped to the stored build. |
| KojiParent.KojiParentPlugin.Run | atomic_reactor/plugins/pre_koji_parent.py:68-73 | Without an NVR it returns None, asks Koji nothing and keeps the build. With one, it waits for the build. It raises exactly when none was found, and else returns the single-entry result. |

## Left out

- SSH transport: `SSHRetrySession`, its `backoff` retries, `_open_ssh_session`, `_ssh_session`, `_run` and the remote shell commands. These are network I/O. They are replaced by the `files` map and the fault flags.
- `slots_dir` is modelled as `os.path.join` of a given home directory; the `pwd` call over SSH that yields it is left out.
- Inter-process locking: `_get_blocking_session_with_locked_slot` and `_locked_slot` are concurrency machinery. Their outcome is the `acquired` oracle, and any error inside the locked section counts as a failed lock or unlock (false).
- `is_operational` is an oracle. `datetime.fromisoformat` and `SlotData.datetime` are the `isIso` oracle. `datetime.utcnow()` is the `now` parameter.
- `random.shuffle` is modelled as an arbitrary permutation, not a random one.
- The sort key `len/slots` is a float in the source. It is modelled as an exact rational, so float rounding is not modelled.
- The read command's `.strip()` of its output and the newline `echo` adds are not modelled. `files` holds the text as read back, so a prid or timestamp with surrounding whitespace would read back differently in the source.
- `SlotData.is_valid` with a timestamp of None and a truthy prid raises TypeError in the source. It is unreachable through `from_string` and is modelled as invalid.
- `HostSlot.path` is not a field. The slot path is the function `RemoteHost.SlotPath`.
- RemoteHosts.SortByRatio: the sort's stability (equal ratios keep their input order) is not stated. Only the descending order and the permutation are proved.
- RemoteHosts.SelectHostsSpec: it states the kept hosts as a set, and configuration order only through `FromConfig`'s construction.
- RemoteHosts.RemoteHostsPool.LockResource: the pool tries slots with no concurrent writers, so a slot that changes during `lock_resource` is not modelled.
- RemoteHosts.RemoteHostsPool.LockRanked: it does not restate the within-entry order of attempts; `TryLock` states it.
- `get_rpm_list` (atomic_reactor/utils/rpm.py:26-37) reads the rpm library's database and is left out.
- `int()` on an epoch is modelled for an optional sign followed by ASCII digits. The whitespace, underscore and non-ASCII digit forms Python also accepts are not modelled.
- Koji's session, `get_koji_session`, and the time-based `start_polling_timer`/`is_within_timeout` are left out. The polling is modelled as the sequence of `getBuild` replies that arrive within the timeout, and `time.sleep` has no counterpart.
- The osbs `Labels` class and its alias resolution are not part of this model. Labels are a partial map from the three label kinds to values.
- A base-image configuration without a `Labels` key raises KeyError in the source; this is not modelled.
- Logging is not modelled.
- The operator CSV pullspec rewriter is not part of this model, since its implementation is not among the sources.
