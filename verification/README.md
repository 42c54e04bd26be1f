# omni-infra-provider-libvirt: verified models

The provider turns machine requests of Omni into libvirt virtual machines. This project models four of its
parts in Dafny and proves what each is for, over all inputs, all runs and all interleavings.

* **The MachineSpec codec** (`wire.dfy`, `wirerecords.dfy`, `messages.dfy`, `wiremessages.dfy`, `protohelpers.dfy`,
  `codec.dfy`). The record that survives between provisioning steps is a protobuf message with two repeated
  sub-messages and unknown fields kept verbatim. `wire.dfy` is the Protocol Buffers wire format on byte sequences
  (sections "Base 128 Varints", "Message Structure" and "Last One Wins" of the Protocol Buffers Encoding guide),
  `messages.dfy` the values and the codec's laws, `protohelpers.dfy` the cursor loops, and `codec.dfy` the three
  generated classes: encoders that write backwards into a buffer, decoders that advance an index, `CloneVT`,
  `EqualVT` and `SizeVT`, each proved equal to the functions the laws are about. `wirerecords.dfy` writes down what
  varints and wire records are without the decoder, and proves that the decoder takes exactly these;
  `wiremessages.dfy` does it for messages: which are accepted, what each record does, why others are refused, and
  which records are written.
* **The image cache** (`cache.dfy`, `cacheaging.dfy`, `cacheremoval.dfy`, `imagecache.dfy`). A step system with any
  number of callers and keys, one flight per key, a directory, a clock and a cleanup that holds the lock while
  downloads, which do not take it, go on. Its invariants hold over every interleaving. `cacheaging.dfy` says exactly
  when cleanup can take the temp file of a young download, `cacheremoval.dfy` where stamps come from and that an
  image nobody uses does go. `imagecache.dfy` is the object with its locked sections and the cleanup loop, proved
  against the functions that the steps use; an Acquire that nothing disturbs is a run of the steps.
* **The machine lifecycle** (`libvirt.dfy`, `provision.dfy`, `deprovision.dfy`, `retry.dfy`, `lifecycle.dfy`,
  `fleet.dfy`, `interference.dfy`, `outcomes.dfy`, `provider.dfy`, names in `names.dfy` and `volnames.dfy`). libvirt
  is a map of volumes by pool and name, a map of domain states, a set of pools and a log of deletions. Every libvirt
  call gets one of three replies: success, failure, or failure reported although the call took effect. A plan gives
  the replies of one attempt, so quantifying over plans quantifies over every pattern of failures; between two
  attempts or calls the guest may power off. `outcomes.dfy` spells out the inventory of a completed run and when each
  step and each teardown call succeeds, fails, and what it leaves. `provider.dfy` holds the procedures that update
  the inventory and the record in place; its two entry points, `RunStep` and `DeprovisionOnce`, carry the conclusions
  of the theorems.
* **Disk device names** (`disks.dfy`). The bijective base 26 loop of createVM, whose `fmt.Sprint(rune(...))`
  prints decimal code points: the first sata disk is `sd99`, not `sdc`.

## What the proofs found

* A message that encodes like a well-formed one is EqualVT to it if and only if it is well formed, too
  (`EqualExactlyWhenSameBytes`); well formed means that the unknown bytes, at both levels, are complete records
  outside the known fields. A uuid and the same record kept as unknown bytes encode alike and are not EqualVT
  (`SameBytesDifferentMessages`). The round trip needs exactly this condition (`RoundTrip`).
* Dash-free disk types do not keep volume names of different machines apart. There are exactly three ways to meet
  (`ShareExactly`): a disk of type `volume` of machine `a` has the name of the main volume of machine `a-0` in the
  same pool (`TypeVolumeCollides`); in pool `config`, a disk of type `x.iso` of `user-data` is the cidata volume of
  `0-x` (`CidataCollides`); in pool `nvram`, a disk of type `x_VARS.fd` of `v` is the NVRAM volume of `v-0-x`
  (`NvramCollides`). The provider itself checks a disk's type only in createVM, after its volume was made; the
  collisions concern request data that was not validated against
  `cmd/omni-infra-provider-libvirt/data/schema.json`, which allows the types `sata` and `nvme`. Disks of these two
  types meet nothing (`KnownTypesMeetNothing`).
* A single machine's own volumes never meet, except that a disk whose type has dashes can have the name of the
  machine's ISO in pool `isos` (`OwnKey`, `OwnIsoCollides`).
* The comment at `internal/pkg/provider/images.go:46` says that `lastUsed` is reset by Acquire. The code stamps it
  only in Release, when the last reference goes, and in cleanup; the model follows the code.
* Cleanup can take the temp file of a live download that is younger than MaxAge, because the age is counted from
  the start of the cleanup that stamps it, or from a stamp left under the same name. `YoungTempLost` is such a run;
  `EarlyRemovalExactly` is the exact condition.
* One start whose reply is lost in createVM leaves a domain that runs, and as long as its guest keeps running no
  attempt succeeds: defining works, starting says that the domain already runs, and createVM, unlike startVM, takes
  that for an error. Every machine that can be provisioned can get there (`OneLostReplySticks`), and it is the only
  way: in every other state that failures can leave, failure-free attempts complete, and once the guest has powered
  off they do in this one, too (`ResumesExactly`).
* Teardown restores the inventory exactly when nothing was made that the record does not name yet
  (`RestoresExactly`). Before provisionVMVolume has succeeded, the early return on an empty pool name leaves the
  ISO volume and a main volume whose path lookup failed; disks made by a disk loop that failed later stay, too.
  Both are reached by short runs (`EarlyLeakReached`, `HalfMadeLeakReached`). The pools `isos` and `config` stay in
  every case.
* Until createVM has succeeded the record has no machine name, so teardown looks for the NVRAM volume
  `_VARS.fd`, which belongs to no machine, and deletes it if it is there.
* Machines that can be provisioned and whose names do not meet are independent of each other exactly when the pools
  `isos` and `config` exist beforehand and teardown cannot find that `_VARS.fd` (`IndependentExactly`). A machine's
  own volumes, domain and record are left alone by the others in any case (`Isolation`).
* Deprovision can return nil exactly when every pool it looks into exists, `nvram` always among them, and the
  domain is running, shutting down, shut off or absent (`TeardownPossible`). A paused or crashed domain is never
  torn down.
* Provisioning can complete exactly when the storage pool exists, or is the pool `isos`, which provisionISO
  creates, and every additional disk has a type that createVM knows (`CompletesExactly`).

## Model

| member | source | states |
|---|---|---|
| Wire.ReadEncVarint | api/specs/specs_vtproto.pb.go:649-663 | the decoder's varint loop reads back every 64-bit value from the encoder's bytes, whatever follows them, and consumes exactly those bytes |
| Wire.EncVarintIsMinimal | api/specs/specs_vtproto.pb.go:649-663 | no byte string that decodes to a value is shorter than the encoder's own, so non-minimal varints are only ever longer |
| Wire.RecordLocal | api/specs/specs_vtproto.pb.go:648-751 | a record, known or skipped with its nested groups, is read the same wherever it stands and whatever follows it |
| Wire.RecordPosition | api/specs/specs_vtproto.pb.go:691-702 | where a record stands in the buffer decides which length error is reported, never whether there is one |
| Wire.ReadEncField | api/specs/specs_vtproto.pb.go:664-704 | an encoded length-delimited field is read back with its number, its payload and its exact extent |
| Wire.FieldAtLeastMinimal | api/specs/specs_vtproto.pb.go:664-704 | a field that was read occupied at least the bytes the encoder would spend on it |
| Wire.FoldMerge | api/specs/specs_vtproto.pb.go:970-1504 | for any message type, decoding b1 + b2 is decoding b1 and then b2 into the result, down to the error and the partly decoded message |
| Wire.FoldUnknown | api/specs/specs_vtproto.pb.go:1483-1496 | what decoding adds to the unknown bytes is exactly the input's unknown records, in input order, and they stay well formed |
| Wire.FoldAllUnknown | api/specs/specs_vtproto.pb.go:1483-1496 | decoding well-formed unknown records appends them unchanged and touches nothing else |
| Wire.UnknownPartWhole | api/specs/specs_vtproto.pb.go:1483-1496 | bytes that come back as unknown bytes unchanged were well-formed unknown records |
| Wire.FoldSize | api/specs/specs_vtproto.pb.go:970-1504 | if no assignment grows the encoding by more than the field it came from, no decoded message encodes to more bytes than were read |
| WireRecords.VarintExactly | api/specs/specs_vtproto.pb.go:649-663 | what is read as a varint is one to ten bytes of which all but the last go on, with the value of their seven-bit groups modulo 2^64; and the error says why none stands there: ten bytes that go on, or data that ends first |
| WireRecords.RecordIsSkipped | api/specs/specs_vtproto.pb.go:737-750 | every wire record, of any of the five kinds, with varints of any length and groups nested to any depth, is skipped as a whole, whatever follows it |
| WireRecords.SkipExactly | api/specs/specs_vtproto.pb.go:737-750 | and nothing else is: what is skipped inside the data is such a record |
| WireRecords.CutIsNotSkipped | api/specs/specs_vtproto.pb.go:737-750 | of a record that is cut off anywhere, also inside nested groups, the end is not found, or lies behind the end of the data |
| WireMessages.RecordExactly | api/specs/specs_vtproto.pb.go:648-751 | one turn of a decoding loop takes exactly the records with a field number from 1 to 2^31 - 1 whose known fields are length-delimited, as that field with that payload, or verbatim |
| WireMessages.TagRefused | api/specs/specs_vtproto.pb.go:664-673 | the error of every tag that is refused: end of group, field number 0 or from 2^31 on, wrong wire type of a known field, wire types 6 and 7 |
| WireMessages.NoTag | api/specs/specs_vtproto.pb.go:649-663 | and of data without a tag |
| WireMessages.LengthRefused | api/specs/specs_vtproto.pb.go:677-702 | the error of every length that is refused: too many bytes, cut off, beyond an int64, beyond the data |
| WireMessages.RecordCutOff | api/specs/specs_vtproto.pb.go:648-751 | every record that is cut off anywhere is reported as the unexpected end of the data |
| Messages.EqualIsNorm | api/specs/specs_vtproto.pb.go:158-238 | EqualVT of two machines holds exactly when they are the same after nil entries are replaced by empty messages |
| Messages.EqualIsEquivalence | api/specs/specs_vtproto.pb.go:158-238 | EqualVT is reflexive, symmetric and transitive |
| WireMessages.AcceptsExactly | api/specs/specs_vtproto.pb.go:970-1504 | the decoder accepts exactly the sequences of such records whose entries of fields 11 and 12 are such sequences, too |
| WireMessages.DecodedMessage | api/specs/specs_vtproto.pb.go:970-1504 | what a machine decodes to, read off the records of its input: every string, both lists, the unknown bytes |
| WireMessages.LastOneWins | api/specs/specs_vtproto.pb.go:1000-1482 | whatever a machine had, and whatever decodes into it, each of its thirteen strings is afterwards the last value that the input has under its field number, or what it was if there is none |
| WireMessages.DiskLastOneWins | api/specs/specs_vtproto.pb.go:644-757 | the same for the two strings of an additional disk |
| WireMessages.NicLastOneWins | api/specs/specs_vtproto.pb.go:759-968 | the same for the five strings of a network interface |
| WireMessages.CutOff | api/specs/specs_vtproto.pb.go:970-1504 | of a message that is cut off within a record, what stands before the record is decoded, and the error is the unexpected end of the data |
| WireMessages.AllUnknownExactly | api/specs/specs_vtproto.pb.go:1483-1496 | unknown bytes are well formed exactly when they are wire records outside the known fields |
| WireMessages.SpecEmitted | api/specs/specs_vtproto.pb.go:380-520 | a machine is written as the records of its non-empty strings and of all its entries, in ascending order of field numbers |
| WireMessages.DiskEmitted | api/specs/specs_vtproto.pb.go:265-292 | the same for an additional disk |
| WireMessages.NicEmitted | api/specs/specs_vtproto.pb.go:312-360 | the same for a network interface |
| WireMessages.UnknownLast | api/specs/specs_vtproto.pb.go:388-391 | and its unknown bytes stand at the end |
| Messages.FoldEntries | api/specs/specs_vtproto.pb.go:1156-1192 | decoding a repeated field, disks or network interfaces, appends its entries in order, or fails at the first that does not decode, which stays as the last entry |
| Messages.FoldEntry | api/specs/specs_vtproto.pb.go:1156-1192 | an entry that does not decode stays in its list as far as it was decoded, and its error is the machine's |
| Messages.DecodeEncSpec | api/specs/specs_vtproto.pb.go:362-520 | a machine's encoding decodes to the machine with every entry re-decoded, followed by whatever its unknown bytes decode to; one entry that does not decode fails the whole |
| Messages.RoundTrip | api/specs/specs_vtproto.pb.go:362-520 | UnmarshalVT of MarshalVT into a fresh message succeeds with an EqualVT message if and only if the unknown bytes at both levels are complete records outside the known fields |
| Messages.RoundTripNorm | api/specs/specs_vtproto.pb.go:362-520 | the same with the decoded value exactly: the machine with nil entries replaced by empty ones |
| Messages.EncSpecNorm | api/specs/specs_vtproto.pb.go:467-490 | a nil entry of a repeated field encodes as an empty message |
| Messages.EqualExactlyWhenSameBytes | api/specs/specs_vtproto.pb.go:158-238 | for a machine with well-formed unknown bytes, EqualVT with another holds exactly when MarshalVT gives the same bytes for both and the unknown bytes of the other are well formed, too |
| Messages.SameBytesDifferentMessages | api/specs/specs_vtproto.pb.go:388-391 | two machines, one of them with a known field among its unknown bytes, that encode alike and are not EqualVT |
| Messages.DecodedEntries | api/specs/specs_vtproto.pb.go:1156-1192 | for every input that decodes into any message, the two lists are what they were and then, in input order, the decoded payloads of fields 11 and 12, all of which decode |
| Messages.EntriesKeepUnknown | api/specs/specs_vtproto.pb.go:644-968 | every decoded entry of both lists carries exactly the unknown records of its own payload, in input order |
| Messages.Canonical | api/specs/specs_vtproto.pb.go:970-1504 | for every byte string that decodes: the unknown bytes of the machine and of every entry are the unknown records of the input and of the entry's payload in order, the message is well formed and encodes to no more bytes than were read, and decoding that gives the same message again |
| Messages.DecodedHasNoNils | api/specs/specs_vtproto.pb.go:1156-1192 | decoding never leaves a nil entry |
| Messages.Merge | api/specs/specs_vtproto.pb.go:970-1504 | Last One Wins: if b1 decodes, decoding b1 + b2 into any message is decoding b1 and then b2, with the same message and failure in the same cases |
| Messages.SpecSizeOf | api/specs/specs_vtproto.pb.go:570-642 | the encoded length is the sum of the fields' lengths and the unknown bytes |
| Protohelpers.EncodeVarint | api/specs/specs_vtproto.pb.go:277-283 | writes the minimal varint so that it ends just before the offset, returns where it begins and changes no other byte |
| Protohelpers.OrIsAdd | api/specs/specs_vtproto.pb.go:659 | or-ing two numbers of which one lies below a power of two and the other is a multiple of it is adding them |
| Protohelpers.OrGroup | api/specs/specs_vtproto.pb.go:659 | one turn of the accumulator: or-ing in seven bits, shifted and cut to 64 bits, is addition modulo 2^64, as long as what was read so far stands below the shift |
| Protohelpers.BitsBelow | api/specs/specs_vtproto.pb.go:659 | and it does after every turn |
| Protohelpers.DecodeVarint | api/specs/specs_vtproto.pb.go:649-663 | the varint loop, which or-s shifted groups into a uint64, reads what the specification reads, modulo 2^64, with its two errors, and terminates in bounds on every input |
| Protohelpers.ReadLength | api/specs/specs_vtproto.pb.go:677-702 | the negative-length and postIndex checks, in int64 arithmetic that may wrap, pass exactly when the payload lies inside the buffer, and then delimit it |
| Protohelpers.Skip | api/specs/specs_vtproto.pb.go:737-750 | terminates on every input with the positive length of one record, groups nested to any depth included, or with the specification's error |
| Protohelpers.NextRecord | api/specs/specs_vtproto.pb.go:648-750 | one turn of a decoding loop up to the assignment: tag checks, known field or skipped record, the error among several, and a cursor that advances |
| Protohelpers.PutString | api/specs/specs_vtproto.pb.go:277-283 | the block emitted for one string field puts tag, length and bytes directly in front of what was written, nothing for an empty string, and changes no other byte |
| Protohelpers.PutField | api/specs/specs_vtproto.pb.go:467-490 | length prefix and tag complete a field whose payload already stands in the buffer |
| Codec.AdditionalDisk.CloneVT | api/specs/specs_vtproto.pb.go:23-35 | an equal message that did not exist before; nil for nil; the unknown bytes are an immutable value here, so that the copy of that slice shares nothing holds by construction |
| Codec.AdditionalDisk.EqualVT | api/specs/specs_vtproto.pb.go:105-118 | equality of all fields and unknown bytes, nil equal to nil only |
| Codec.AdditionalDisk.SizeVT | api/specs/specs_vtproto.pb.go:522-538 | the exact length of the encoding, 0 for nil |
| Codec.AdditionalDisk.MarshalToSizedBufferVT | api/specs/specs_vtproto.pb.go:265-292 | in any buffer that is large enough, writes the encoding into the last bytes, returns its length and leaves every other byte |
| Codec.AdditionalDisk.MarshalToVT | api/specs/specs_vtproto.pb.go:260-263 | writes the encoding at the start of the buffer and nothing behind it |
| Codec.AdditionalDisk.MarshalVT | api/specs/specs_vtproto.pb.go:247-258 | the encoding |
| Codec.AdditionalDisk.UnmarshalVT | api/specs/specs_vtproto.pb.go:644-757 | total: on every byte string ends with the specified message and error, decoded records before an error kept |
| Codec.NetworkInterfaces.CloneVT | api/specs/specs_vtproto.pb.go:41-56 | an equal message that did not exist before; nil for nil; the unknown bytes are an immutable value here, so that the copy of that slice shares nothing holds by construction |
| Codec.NetworkInterfaces.EqualVT | api/specs/specs_vtproto.pb.go:127-149 | equality of all fields and unknown bytes, nil equal to nil only |
| Codec.NetworkInterfaces.SizeVT | api/specs/specs_vtproto.pb.go:540-568 | the exact length of the encoding, 0 for nil |
| Codec.NetworkInterfaces.MarshalToSizedBufferVT | api/specs/specs_vtproto.pb.go:312-360 | as for AdditionalDisk |
| Codec.NetworkInterfaces.MarshalToVT | api/specs/specs_vtproto.pb.go:307-310 | as for AdditionalDisk |
| Codec.NetworkInterfaces.MarshalVT | api/specs/specs_vtproto.pb.go:294-305 | the encoding |
| Codec.NetworkInterfaces.UnmarshalVT | api/specs/specs_vtproto.pb.go:759-968 | as for AdditionalDisk |
| Codec.MarshalDisks | api/specs/specs_vtproto.pb.go:479-490 | the loop over field 11 from the last entry to the first: nested calls on the buffer's prefix leave what is already written untouched |
| Codec.MarshalNics | api/specs/specs_vtproto.pb.go:467-478 | the same for field 12 |
| Codec.EqualDisks | api/specs/specs_vtproto.pb.go:176-192 | entry by entry, nil compared as an empty message |
| Codec.EqualNics | api/specs/specs_vtproto.pb.go:193-209 | the same for network interfaces |
| Codec.SizeDisks | api/specs/specs_vtproto.pb.go:592-597 | the exact length of all entries of field 11 with their prefixes |
| Codec.SizeNics | api/specs/specs_vtproto.pb.go:598-603 | the same for field 12 |
| Codec.CloneDisks | api/specs/specs_vtproto.pb.go:80-86 | entries with equal values, none of which existed before |
| Codec.CloneNics | api/specs/specs_vtproto.pb.go:87-93 | the same for network interfaces |
| Codec.MachineSpec.CloneVT | api/specs/specs_vtproto.pb.go:62-99 | an equal message of which neither the message nor any entry of its lists existed before; the unknown bytes are an immutable value here, so that the copy of that slice shares nothing holds by construction |
| Codec.MachineSpec.EqualVT | api/specs/specs_vtproto.pb.go:158-238 | nil equals nil only; otherwise the equality that EqualIsNorm explains |
| Codec.MachineSpec.SizeVT | api/specs/specs_vtproto.pb.go:570-642 | the exact length of the encoding, two-byte tags from field 16 on included |
| Codec.MachineSpec.MarshalToSizedBufferVT | api/specs/specs_vtproto.pb.go:380-520 | in any buffer of at least SizeVT bytes returns exactly SizeVT, writes the encoding into the last bytes and leaves every other byte |
| Codec.MachineSpec.MarshalToVT | api/specs/specs_vtproto.pb.go:375-378 | writes the encoding at the start of the buffer and nothing behind it |
| Codec.MachineSpec.MarshalVT | api/specs/specs_vtproto.pb.go:362-373 | the encoding |
| Codec.MachineSpec.UnmarshalVT | api/specs/specs_vtproto.pb.go:970-1504 | total: on every byte string ends with the specified message and error; on an error inside a repeated entry that entry stays, as far as it was decoded |
| Disks.LettersDecode | internal/pkg/provider/provision.go:443-447 | the decimal codes 97 to 122 are uniquely decodable, so the printed name gives back the index |
| Disks.DeviceLetters | internal/pkg/provider/provision.go:441-447 | the base 26 loop terminates with the bijective base 26 name of its index in decimal codes |
| Disks.AssembleDevices | internal/pkg/provider/provision.go:424-481 | builds the list of target devices with the two counters, or reports the first disk of unknown type |
| Disks.DevicesDistinct | internal/pkg/provider/provision.go:350-481 | no two disks share a device, for any number and order of nvme and sata disks beside sdd, sdb and sdc |
| Disks.DevicesAre | internal/pkg/provider/provision.go:350-481 | the devices are sdd, sdb, sdc, and then for an nvme disk "nvme", the number of nvme disks before it and "n1", for a sata disk "sd" and letters that read as 2 plus the number of sata disks before it |
| Disks.FirstDevices | internal/pkg/provider/provision.go:424-450 | the first sata disk is "sd99", the first nvme disk "nvme0n1" |
| Cache.CacheKeyInjective | internal/pkg/provider/images.go:71-73 | distinct images have distinct keys, for dash-free schematic IDs and formats and versions with any dashes |
| Cache.NamesApart | internal/pkg/provider/images.go:263 | no cache key is the name of a temp file, and both are the strings that the two formats give |
| Cache.CountsKept | internal/pkg/provider/images.go:82-135 | every step keeps refs[key] equal to the number of callers between their increment and their decrement |
| Cache.InvKept | internal/pkg/provider/images.go:78-313 | every step of every caller, flight and cleanup keeps all invariants together |
| Cache.CacheSafety | internal/pkg/provider/images.go:78-219 | after every interleaving refs counts the callers, and an image that some caller holds is in the directory, complete |
| Cache.DownloadAtomic | internal/pkg/provider/images.go:262-304 | an image's name never shows an unfinished download, and a live temp file has been taken only at an age of at least MaxAge, counted from a stamp left under its name, or else from the start of a cleanup that had still to list or do it when it was created, or else from its creation |
| Cache.SharedOutcome | internal/pkg/provider/images.go:88-106 | in every run, when a flight ends: after success all its waiters hold the image and it is there, complete; after failure all have failed and there is no image; nobody waits for it any more, and nobody else moves |
| Cache.RemovalAge | internal/pkg/provider/images.go:175-210 | over every run, an image is removed only by cleanup, unused, with a stamp at least MaxAge old and its last holder gone for at least MaxAge |
| Cache.SweepOneEffect | internal/pkg/provider/images.go:172-212 | one entry of the cleanup loop removes at most its own file, only unused and old, and stamps only what had no stamp |
| CacheRemoval.ReleaseStamps | internal/pkg/provider/images.go:124-135 | in every run, the release by an image's only user stamps it with the clock of that moment and drops its counter; any other release stamps nothing; no release touches another stamp, the directory or another caller |
| CacheRemoval.StampOrigin | internal/pkg/provider/images.go:131-209 | a stamp is set only by such a release, to its time, or by a cleanup that finds an unused file without one, to the time the cleanup started; and it goes only with its file |
| CacheRemoval.IdleImageGoes | internal/pkg/provider/images.go:154-219 | in every run, after an image's only user has released it and as long as nobody acquires it, a cleanup that starts MaxAge later or more, lists the directory and can remove the file has removed it when it is over, whatever else goes on |
| CacheAging.EarlyRemovalExactly | internal/pkg/provider/images.go:158-209 | a download's temp file can be removed at an age below MaxAge if and only if an older stamp was left under its name, or, without one, a cleanup that started earlier has still to list the directory or to do the name |
| CacheAging.YoungTempLost | internal/pkg/provider/images.go:158-209 | a run from a fresh process that reaches that condition |
| ImageCaches.CleanupConverges | internal/pkg/provider/images.go:154-219 | two cleanups at least MaxAge apart with nothing in between leave only files that are in use |
| ImageCaches.DropUndoesRetain | internal/pkg/provider/images.go:106-115 | a failed Acquire leaves the counters as they were |
| ImageCaches.ImageCache.Download | internal/pkg/provider/images.go:262-312 | success puts the complete image under its key and removes the temp name; failure leaves the directory as it was, but for a temp file whose removal failed |
| ImageCaches.ImageCache.Acquire | internal/pkg/provider/images.go:78-121 | for a caller that nothing disturbs: succeeds exactly when the image is there or its download completes, counted once, with the directory each way of ending leaves; counts nothing on failure |
| ImageCaches.AcquireIsARun | internal/pkg/provider/images.go:78-121 | the steps of such a caller, one by one in the step system, leave exactly the counts and the directory the method leaves |
| ImageCaches.ImageCache.Release | internal/pkg/provider/images.go:124-135 | one decrement, with a stamp exactly when the last reference goes |
| ImageCaches.ImageCache.Cleanup | internal/pkg/provider/images.go:154-218 | nothing changes when the directory cannot be read; otherwise directories are skipped, the loop with its four exits does to each listed file what the step system's cleanup step does, and files and stamps that were not listed stay as they were |
| Libvirt.CreateVolumeEffect | internal/pkg/provider/volumes.go:42-84 | createVolume touches one volume; one that it finds is kept as it is, whatever its format and size, one that it makes has the wanted shape, and after success one is there, whatever failed before |
| Libvirt.CreateVolumeExactly | internal/pkg/provider/volumes.go:42-84 | when createVolume succeeds, and what it leaves, for every volume, pool and pattern of replies |
| Libvirt.ManagerCreateExactly | internal/pkg/libvirt/volume/libvirt/pool.go:37-112 | the same for Manager.Create: a failed path lookup fails it and leaves the volume |
| Libvirt.PoolForExactly | internal/pkg/libvirt/volume/libvirt/pool.go:238-266 | the same for createOrGetPool |
| Libvirt.CreateFromEffect | internal/pkg/libvirt/volume/libvirt/pool.go:170-215 | CreateFrom touches one volume and at most adds its pool; after success the volume is new and holds the content |
| Libvirt.CreateFromExactly | internal/pkg/libvirt/volume/libvirt/pool.go:170-215 | when CreateFrom succeeds, and what it leaves however it ends: after a failed upload the undo takes the volume away, and if that fails, too, it stays as the upload left it; a failed path lookup leaves the whole image |
| Libvirt.RemoveOldEffect | internal/pkg/provider/provision.go:146-151 | deleting an old version touches that volume only |
| Libvirt.RemoveOldExactly | internal/pkg/provider/provision.go:146-151 | an old version is deleted only when it is found; a failed lookup passes for none |
| VolNames.DiskInjective | internal/pkg/provider/provision.go:208 | a disk volume's name gives back machine, index and type, whatever dashes machine names contain |
| VolNames.IsoInjective | internal/pkg/provider/provision.go:136 | an ISO volume's name gives back machine and schematic |
| Names.DecimalReads | internal/pkg/provider/provision.go:208 | the number in a disk's name reads back as the disk's index, without leading zeros |
| VolNames.MainVersusDisk | internal/pkg/provider/provision.go:176 | a main volume and a disk share a name exactly when the disk has type "volume" and the machine is named like the other machine and the disk's index |
| VolNames.CidataVersusDisk | internal/pkg/provider/provision.go:248 | a cidata volume and a disk of dash-free type share a name exactly when the type ends in ".iso" and the rest of the disk's name is "user-data-" and the machine |
| VolNames.NvramVersusDisk | internal/pkg/provider/provision.go:548 | an NVRAM volume and a disk of dash-free type share a name exactly when the type ends in "_VARS.fd" and the rest of the disk's name is the machine |
| VolNames.IsoVersusDisk | internal/pkg/provider/provision.go:136 | an ISO volume and a disk of dash-free type never share a name |
| VolNames.ShareExactly | internal/pkg/provider/provision.go:136-248 | two machines with dash-free schematics and types share a volume, of whatever kinds, if and only if a disk of one meets the other in one of these three ways |
| VolNames.KnownTypesMeetNothing | internal/pkg/provider/provision.go:424-481 | disks of the types createVM accepts meet no other machine |
| VolNames.TypeVolumeCollides | internal/pkg/provider/provision.go:208 | a disk of type "volume" of "a" has the name of the main volume of "a-0" |
| VolNames.CidataCollides | internal/pkg/provider/provision.go:208 | a disk of dash-free type in pool "config" is another machine's cidata volume |
| VolNames.NvramCollides | internal/pkg/provider/provision.go:208 | a disk of dash-free type in pool "nvram" is another machine's NVRAM volume |
| VolNames.KeyOwner | internal/pkg/provider/provision.go:136-248 | for dash-free schematics and types, a volume belongs to one machine and one step, over all kinds of volume, unless a disk meets another machine |
| VolNames.OwnKey | internal/pkg/provider/provision.go:136-248 | whatever its types, a machine's own volume belongs to one of its steps, unless a disk has the volume of its ISO |
| VolNames.OwnIsoCollides | internal/pkg/provider/provision.go:136-208 | a disk in pool "isos" whose type has a dash that is the volume of the machine's own ISO |
| VolNames.DashFreeIsSafe | internal/pkg/provider/provision.go:136-208 | a disk of dash-free type never has the volume of the machine's ISO |
| Retry.AttemptStep | internal/pkg/provider/provision.go:59-570 | one attempt at any step, from whatever earlier attempts left: success gives exactly the state the step is for, failure something a later attempt can start from |
| Retry.CompletedRun | internal/pkg/provider/provision.go:59-570 | the exact inventory and record in which every completed run ends, wherever attempts fail and guests power off on the way |
| Outcomes.CompletedVolumes | internal/pkg/provider/provision.go:59-570 | the volumes of a completed run by their literal names: ISO and cidata with their contents, a raw main volume and every disk with its own type, of the requested GiB times 2^30 bytes in a uint64, the NVRAM file, and beside these exactly what was there before |
| Outcomes.CapacityInBytes | internal/pkg/provider/provision.go:32-33 | the capacity is the size times 2^30, modulo 2^64, and below 2^34 GiB exactly that |
| Outcomes.CompletedRecord | internal/pkg/provider/provision.go:59-570 | the record of a completed run by its literal names, the domain running, and the two image pools there |
| Outcomes.SucceedsExactly | internal/pkg/provider/provision.go:59-570 | the first attempt at each step succeeds exactly when each of the calls it needs is answered, spelled out for each step |
| Outcomes.LeavesExactly | internal/pkg/provider/provision.go:59-570 | the volumes and domains that the first attempt at each step leaves, for every pattern of replies |
| Outcomes.RenewsExactly | internal/pkg/provider/provision.go:103-324 | what any attempt at an image step leaves, a repeated one included: nothing happens without the image, an old version that is found is deleted, and one that is not found is not overwritten |
| Retry.RetryEquivalence | internal/pkg/provider/provision.go:59-570 | two runs that complete, with failures and guests that power off anywhere, end with the same volumes and contents, pools, domains and record |
| Retry.CompletesExactly | internal/pkg/provider/provision.go:178-181 | provisioning can complete exactly when the storage pool exists or is "isos" and every disk type is known, and then eight failure-free attempts do it |
| Retry.ResumesExactly | internal/pkg/provider/provision.go:59-570 | from whatever an interrupted run left: as long as the guest does not power off, some continuation completes if and only if createVM was not left with its domain running, and then failure-free attempts do, one for each step left and one more for an image whose pool is gone; after the guest has powered off they always do |
| Retry.StuckWhileRunning | internal/pkg/provider/provision.go:326-552 | with its domain running, createVM fails as long as the guest keeps running, whatever the replies |
| Retry.OneLostReplySticks | internal/pkg/provider/provision.go:326-552 | every machine that can be provisioned gets there by six failure-free attempts and one start whose reply is lost; nothing then completes it while the guest runs, and three failure-free attempts do once it has powered off |
| Deprovision.CallEffect | internal/pkg/provider/deprovision.go:23-73 | a call removes only the recorded volumes, the domain and its NVRAM, and after nil all of them are gone |
| Deprovision.Ordering | internal/pkg/provider/deprovision.go:30-70 | in one call, with any failures, nothing but the NVRAM volume is deleted while the domain is defined |
| Deprovision.OrderingAlways | internal/pkg/provider/deprovision.go:30-70 | the same over every run of repeated calls with any failures |
| Deprovision.TeardownEffect | internal/pkg/provider/deprovision.go:23-73 | the exact inventory after calls repeated until nil, for any record and any failures |
| Deprovision.MeasureNeverIncreases | internal/pkg/provider/deprovision.go:91-118 | domain rank plus remaining recorded volumes never increases |
| Deprovision.DoneMeansZero | internal/pkg/provider/deprovision.go:72 | a call that returns nil has brought that measure to zero |
| Deprovision.GoodCall | internal/pkg/provider/deprovision.go:75-122 | what a failure-free call does in each domain state |
| Outcomes.VerdictExactly | internal/pkg/provider/deprovision.go:23-122 | a call returns nil exactly when each of its calls is answered and the domain is absent or shut off; it asks to be called again exactly without a name or with a domain that is not shut off; it fails otherwise |
| Outcomes.CallLeaves | internal/pkg/provider/deprovision.go:23-248 | the inventory that one call leaves, for every pattern of replies: nothing after a failed removal of the NVRAM volume, then the domain, then the recorded volumes up to the first failure |
| Outcomes.RemovesInOrder | internal/pkg/provider/deprovision.go:124-248 | volumes are removed in order up to the first failure, and the failing one only if its deletion took effect all the same |
| Outcomes.TargetsInOrder | internal/pkg/provider/deprovision.go:30-70 | the NVRAM volume by its recorded name or the machine's; then main, ISO, additional disks in their order, cidata |
| Deprovision.TeardownCompletes | internal/pkg/provider/deprovision.go:91-118 | from a running domain the second failure-free call returns nil, from a domain shutting down the first one after it has |
| Deprovision.NeverStuck | internal/pkg/provider/deprovision.go:23-122 | no history of failed calls keeps two later failure-free calls, with the end of a shutdown between them, from completing |
| Deprovision.TeardownPossible | internal/pkg/provider/deprovision.go:23-248 | a teardown can complete if and only if the request has a name, every pool it looks into exists and the domain is running, shutting down, shut off or absent |
| Deprovision.PausedForever | internal/pkg/provider/deprovision.go:116-117 | a domain in another state is never touched and no call ever returns nil |
| Deprovision.NeverDone | internal/pkg/provider/deprovision.go:212-246 | no call returns nil while the pool "nvram" is missing or the domain is not shut off |
| Deprovision.AfterDone | internal/pkg/provider/deprovision.go:23-73 | after nil, every further call, with any failures, changes nothing |
| Lifecycle.TargetsAt | internal/pkg/provider/deprovision.go:38-70 | which volumes teardown looks for at each step of provisioning |
| Lifecycle.RestoresExactly | internal/pkg/provider/deprovision.go:23-73 | provision to any point, then deprovision until nil: the domains are as before, and the volumes are if and only if nothing was made that the record does not name and no volume "_VARS.fd" was there |
| Lifecycle.TeardownIsInverse | internal/pkg/provider/deprovision.go:42-46 | at every step boundary from provisionVMVolume on, teardown is the inverse of provisioning, up to the pools "isos" and "config" |
| Lifecycle.WholeLife | internal/pkg/provider/provision.go:59-570 | after a completed run and a completed teardown, with any failures on both ways, volumes and domains are what they were |
| Lifecycle.EarlyTeardownLeaks | internal/pkg/provider/deprovision.go:42-46 | before provisionVMVolume has succeeded, an ISO or main volume that is there survives teardown |
| Lifecycle.HalfMadeDisksLeak | internal/pkg/provider/provision.go:211-214 | disks of a loop that failed later survive teardown |
| Lifecycle.EarlyLeakReached | internal/pkg/provider/deprovision.go:42-46 | three failure-free attempts reach a state from which a teardown returns nil and leaves an ISO volume that was not there before |
| Lifecycle.HalfMadeLeakReached | internal/pkg/provider/provision.go:211-214 | four failure-free attempts and a disk loop that fails at its second disk reach one from which a teardown returns nil and leaves the first disk |
| Fleets.AttemptTouches | internal/pkg/provider/provision.go:59-570 | one attempt touches the machine's own volumes and domain and at most adds the two image pools |
| Fleets.CallTouches | internal/pkg/provider/deprovision.go:23-73 | one Deprovision call touches the machine's own volumes and domain and the NVRAM name of no machine |
| Fleets.AlikeAttempt | internal/pkg/provider/provision.go:59-570 | an attempt sees nothing of the inventory but the machine's own volumes, its domain and the pools |
| Fleets.AlikeCall | internal/pkg/provider/deprovision.go:23-73 | the same for a Deprovision call |
| Fleets.Isolation | internal/pkg/provider/deprovision.go:124-248 | for machines no disk of which meets another machine: however other machines' provisioning and teardown interleave and fail, a machine's volumes with contents, domain and record stay as they are and no call is made on its volumes |
| Fleets.Noninterference | internal/pkg/provider/provision.go:59-570 | with the image pools there and no "_VARS.fd" that teardown can find: after any interleaving of all machines' steps each machine is where its own steps alone, with the same failures, would have brought it |
| Interference.IndependentExactly | internal/pkg/provider/provision.go:59-570 | for two machines that can be provisioned, that condition is exact: if it fails, some interleaving brings a machine elsewhere than its own steps alone |
| Provider.Session.CreateVolumeIfAbsent | internal/pkg/provider/volumes.go:42-84 | changes one volume at most; keeps a volume it finds, gives one it makes the wanted shape, and after success one is there |
| Provider.Session.CreateFromImage | internal/pkg/libvirt/volume/libvirt/pool.go:170-215 | changes one volume and its pool at most; after success the volume is new and holds the content; after a failed upload and a working undo the volumes are as before |
| Provider.Session.AddDisks | internal/pkg/provider/provision.go:191-232 | the disk loop: on the first failure the volumes made stay and the record does not change; otherwise the record lists them in order |
| Provider.Session.MakeVM | internal/pkg/provider/provision.go:326-552 | createVM does what the specification does, and the devices it assembles are pairwise distinct |
| Provider.Session.RunStep | internal/pkg/provider/provision.go:59-570 | each of the eight steps, from the exact state before it or whatever failed attempts at it left: success gives the exact state after it, failure one it can be retried from |
| Provider.Session.RemoveAdditionalDisks | internal/pkg/provider/deprovision.go:144-166 | the loop removes the recorded disks in order up to the first failure |
| Provider.Session.RemoveRecordedVols | internal/pkg/provider/deprovision.go:38-72 | main, ISO, additional disks and cidata in this order up to the first failure, nothing for an empty pool name |
| Provider.Session.DeprovisionOnce | internal/pkg/provider/deprovision.go:23-73 | one call removes only the recorded volumes, the domain and its NVRAM, deletes nothing but the NVRAM volume while the domain is defined, and after nil all of them are gone |

## Left out

- HTTP download, URL building, os errors and logging: only success or failure, the directory and the clock are kept.
- libvirt's RPC client and XML: abstracted to the inventory; volume paths, permissions, UUIDs, MAC addresses and network interfaces are not modelled.
- libvirt's own behaviour is an assumption: creating an existing volume and starting an active domain are refused, defining an existing domain keeps its state, starting a UEFI domain brings its NVRAM file into the pool "nvram" where that pool exists, undefining removes both.
- Calls that look up a UUID or generate a schematic can only succeed or fail; the schematic of a machine is fixed.
- Omni's step runner and singleflight internals: steps run in order and are re-run on failure, at most one flight per key with a shared result.
- cloudinit merging and ISO building: one reply decides whether the ISO is built; its content is a parameter.
- protohelpers (EncodeVarint, SizeOfVarint, Skip) is not part of the repository; written from the Protocol Buffers Encoding guide.
- The unrolled per-field loops of the generated decoders are one method each here (DecodeVarint, ReadLength, NextRecord); the assignments stay in the classes.
- A nil and an empty byte slice are the same value, as the code never tells them apart; spare capacity of slices and its aliasing are not modelled.
- Codec.MachineSpec.SizeVT: does not model an int that overflows for messages of 2^63 bytes or more, which no Go slice can hold; the laws carry that bound on the encoding's length.
- Strings are bytes in the codec: UTF-8 validity is not checked by the code either.
- Cache.CacheSafety: os.Stat is taken to succeed exactly when the file exists, ReadDir to be atomic, and a key to be joined only by callers that have incremented it.
- Codec.AdditionalDisk.CloneVT: does not model the copying of the unknown bytes; they are an immutable value, which copies share without effect.
- Codec.NetworkInterfaces.CloneVT: as for AdditionalDisk.
- Codec.MachineSpec.CloneVT: as for AdditionalDisk.
- ImageCaches.ImageCache.Acquire: one caller that nothing disturbs; concurrent ones are in the step system, whose atomic steps end at the lock and at the flight.
- Files in the cache path that are neither images nor temp files.
- Guests that pause, crash or are started from outside; of what happens to a domain by itself, only powering off is a step.
- Lifecycle.RestoresExactly: for a non-empty pool name; libvirt has no pool without a name.
- BridgeCount and interface naming in createVM: unsynchronised, no general uniqueness.
- specs.pb.go getters and reflection, configuration, image and volume listing, Manager.Remove and stateToString: only easy members.
