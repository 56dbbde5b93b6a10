# A model of nova's key handling, compute-manager decisions and nwfilter test fakes

This project models three parts of OpenStack nova in Dafny and proves
properties of them.

**`nova/crypto.py`**
- The CA folder and file rules (`ca_folder`, `ca_path`, `key_path`, `crl_path`).
- How `fetch_ca`, `fetch_crl` and `sign_csr` drop the project id when the
  project CA is off.
- The `openssl` output parsers: the serial in `_sign_csr` and
  `generate_x509_fingerprint`.
- `generate_fingerprint`, with its key-type dispatch and colon-hex formatting.
- `convert_from_sshrsa_to_pkcs8` and `_to_sequence`:
  - the RFC 4253 key blob is cut into length-prefixed fields by the
    `while keydata:` loop;
  - n and e are read as big-endian integers;
  - the DER of the SubjectPublicKeyInfo is built (ITU-T X.690, section 4.1
    of RFC 5280, section 2.3.1 of RFC 3279);
  - the result is written as a PEM "PUBLIC KEY" block (RFC 7468).

  The DER encoder, Base64 (section 4 of RFC 4648), `binascii.hexlify` and
  `int(_, 16)` are modelled too, because the conversion goes through them.

**`nova/compute/manager.py`**, with the DB, RPC and driver abstracted away:
- the instance-lock decorator `checks_instance_lock`;
- `_check_image_size`;
- the image-type and rotation branches of `snapshot_instance`;
- the paginated fetch and trimming in `rotate_backups`;
- the bounded retry loop of `set_admin_password`;
- `_sync_power_states` and `_reclaim_queued_deletes`, over a map from instance id to row;
- the classification loop of `_setup_block_device_mapping`.

**`nova/tests/unit/virt/libvirt/test_firewall.py`**
- The `NWFilterFakes` registry, modelled as a class over a map from filter
  name to (uuid, document).
- The define-order checker `_filterDefineXMLMock`, modelled as a class over
  `defined_filters` and `recursive_depends`.
- What the tests assert of the firewall drivers, stated as abstract state
  transitions:
  - the DHCP and no-DHCP base filters;
  - teardown removing one filter per interface;
  - the provider chain being replaced, not appended to;
  - the refresh skipping instances whose `inst-<id>` chain is gone.

Files:

| File | Contents |
|---|---|
| `wrappers.dfy` | `Option` and `Result` |
| `text.dfy` | `split`, `join`, `strip`, `rpartition`, `lower` and character removal on strings |
| `bytes.dfy` | big-endian integers, `hexlify`, `int(_, 16)`, `bin` and bit strings |
| `base64.dfy` | `base64`: the encoder and a canonical decoder |
| `der.dfy` | the DER encoder and `_to_sequence` |
| `ssh_key.dfy` | `convert_from_sshrsa_to_pkcs8` |
| `crypto_ca.dfy` | CA paths, `fetch_ca`, `fetch_crl`, `sign_csr` and the serial |
| `fingerprint.dfy` | `generate_fingerprint` and `generate_x509_fingerprint` |
| `compute_states.dfy` | a row of the instances table, and the state values |
| `compute_lock.dfy` | `checks_instance_lock` |
| `compute_images.dfy` | `_check_image_size`, `snapshot_instance` and `rotate_backups` |
| `compute_password.dfy` | `set_admin_password` |
| `compute_sync.dfy` | `_sync_power_states` and `_reclaim_queued_deletes` |
| `compute_bdm.dfy` | `_setup_block_device_mapping` |
| `nwfilter_fakes.dfy` | `NWFilterFakes` |
| `define_order.dfy` | `_filterDefineXMLMock` |
| `firewall_contracts.dfy` | the nwfilter driver contracts the tests assert |
| `iptables_contracts.dfy` | the iptables driver contracts the tests assert |

## Model

| member | source | states |
|---|---|---|
| Text.Split | nova/crypto.py:133 | the pieces contain no separator and join back to the input |
| Text.SplitJoin | nova/crypto.py:133 | splitting a join of separator-free pieces gives the pieces back |
| Text.SplitThree | nova/crypto.py:133 | splitting a line of three separator-free fields at the separator gives the three fields |
| Text.Words | nova/crypto.py:223 | `split(None)`: every word is non-empty and space-free, and the words together are the input without its whitespace |
| Text.WordsJoin | nova/crypto.py:223 | `split(None)` of non-empty, space-free words joined by single spaces gives exactly those words back, so each word is a maximal run between whitespace |
| Text.AfterLast | nova/crypto.py:162 | `rpartition('=')[2]`: a separator-free suffix of the input, preceded by the separator whenever shorter, the whole input when there is no separator |
| Text.AfterLastAppend | nova/crypto.py:162 | the text after the last separator, when the part after it has none |
| Text.Strip | nova/crypto.py:162 | the result neither starts nor ends with whitespace |
| Text.StripIsInfix | nova/crypto.py:162 | the stripped text is the input with only whitespace removed at both ends |
| Text.StripPadded | nova/crypto.py:162 | a space-free value followed by whitespace strips to the value |
| Text.Lower | nova/crypto.py:163 | same length, no upper-case letter left, upper-case letters moved by 32, every other character kept |
| Text.Without | nova/crypto.py:266 | the removed character no longer occurs, and text without it is unchanged |
| Text.WithoutCount | nova/crypto.py:266 | only the removed character goes: every other character keeps its number of occurrences, and the removed one has none left |
| Text.WithoutSingle | nova/crypto.py:266 | on one character: the removed character gives empty text, any other stays |
| Text.WithoutAppend | nova/crypto.py:266 | removal distributes over concatenation |
| Bytes.MinimalBytes | nova/crypto.py:248-250 | the shortest big-endian string of n: it denotes n, is empty exactly for 0, and has no leading zero byte |
| Bytes.MinimalBytesOfBigEndian | nova/crypto.py:248-250 | a string without a leading zero is the minimal string of its value |
| Bytes.BigEndianBound | nova/crypto.py:231 | a k-byte big-endian value is below 256^k |
| Bytes.FixedBytes | nova/crypto.py:231 | `struct` packing of k bytes has length k |
| Bytes.BigEndianOfFixedBytes | nova/crypto.py:231 | packing a value below 256^k into k bytes and reading it back gives the value |
| Bytes.FixedBytesOfBigEndian | nova/crypto.py:231 | reading k bytes and packing the value into k bytes gives the bytes back |
| Bytes.Hexlify | nova/crypto.py:145 | two hex digits per byte, none upper-case |
| Bytes.IntFromHexlify | nova/crypto.py:248-249 | `int(hexlify(b), 16)` is the big-endian value of b, and raises exactly for empty b |
| Bytes.BitsToNatOfBitsOf | nova/crypto.py:253 | the bits of a byte string denote its big-endian value |
| Bytes.BinaryOfBitsToNat | nova/crypto.py:254 | `bin` of the value of a bit string that starts with a one gives that bit string |
| Bytes.BitsToNatOfNatBits | nova/crypto.py:253 | the k low bits of a value below 2^k read back as the value |
| Base64.Encode | nova/crypto.py:259 | four characters per started group of three bytes, all from the alphabet or `=`, and no line break |
| Base64.Decode | nova/crypto.py:223 | a decoded input has a length that is a multiple of four, and the output length lies within the group bounds |
| Base64.SextetRoundTrip | nova/crypto.py:223 | each of the 64 characters reads back as its value |
| Base64.DecodeEncode | nova/crypto.py:223 | decoding undoes `b64encode` for every byte string |
| Der.LengthRoundTrip | nova/crypto.py:253-259 | an encoded DER length reads back as the length and the number of octets it took, whatever follows |
| Der.TlvRoundTrip | nova/crypto.py:253-259 | an encoded tag-length-value reads back as its tag, its content and the rest |
| Der.IntegerContent | nova/crypto.py:248-250 | INTEGER content: the shortest two's-complement octets of n, whose big-endian value is n |
| Der.PackBitsOf | nova/crypto.py:254 | packing the bits of a byte string gives the bytes back |
| Der.BitStringContent | nova/crypto.py:254 | BIT STRING content starts with the number of unused bits |
| Der.BitStringContentWhole | nova/crypto.py:254 | bits that fill whole octets get an unused-bits count of zero and no padding |
| Der.SequenceOfTwo | nova/crypto.py:257-259 | a two-element SEQUENCE reads back as the SEQUENCE tag over the two encodings in order |
| Der.RsaEncryptionBytes | nova/crypto.py:207 | rsaEncryption 1.2.840.113549.1.1.1 encodes to 06 09 2A 86 48 86 F7 0D 01 01 01 |
| Der.ToSequence | nova/crypto.py:210-214 | `_to_sequence`: a SEQUENCE with one component per value, in position order |
| SshKey.ParseParts | nova/crypto.py:229-234 | definition of the fields of the key blob; its properties are stated in `SshKey.SplitKeyData`, `SshKey.ParsePartsBound`, `SshKey.ParseSerialize` and `SshKey.SerializeParse` |
| SshKey.SplitKeyData | nova/crypto.py:229-234 | the `while keydata:` loop ends, and returns the fields that ParseParts specifies |
| SshKey.U32 | nova/crypto.py:231 | `struct.unpack('>I', …)` gives a number below 2^32 |
| SshKey.U32IsBigEndian | nova/crypto.py:231 | that number is the big-endian value of the first four bytes |
| SshKey.ParsePartsBound | nova/crypto.py:229-234 | each field costs at least its 4-byte prefix |
| SshKey.ParseSerialize | nova/crypto.py:229-234 | prefixing fields with their 4-byte lengths and cutting the result gives the fields back |
| SshKey.SerializeParse | nova/crypto.py:229-234 | for a well-formed blob, re-prefixing the fields with their lengths rebuilds the blob |
| SshKey.Wrap64 | nova/crypto.py:265-266 | definition of the `re.sub` that inserts a newline after each group of 64 characters; its properties are stated in `SshKey.UnwrapWrap64`, `SshKey.Wrap64Lines`, `SshKey.LongBodyLastLine` and `SshKey.EmptyLineBeforeFooter` |
| SshKey.UnwrapWrap64 | nova/crypto.py:265-266 | removing the inserted newlines recovers the Base64 text |
| SshKey.Wrap64Lines | nova/crypto.py:265-266 | the lines are the first min(count, len/64) groups of 64 characters, in order, then what is left |
| SshKey.LongBodyLastLine | nova/crypto.py:265-266 | `re.DOTALL` is passed as `count`, so a body of more than 17 groups keeps everything after the 16th group on one line |
| SshKey.EmptyLineBeforeFooter | nova/crypto.py:265-266 | a body of whole groups, at most 16 of them, leaves an empty line before the footer |
| SshKey.Pem | nova/crypto.py:259-266 | definition of the PEM block around the Base64 text; its properties are stated in `SshKey.DearmorPem` and `SshKey.EmptyLineBeforeFooter` |
| SshKey.DearmorPem | nova/crypto.py:259-266 | the PEM block reads back as exactly the DER it was made from |
| SshKey.Convert | nova/crypto.py:217-266 | definition of `convert_from_sshrsa_to_pkcs8`; its properties are stated in `SshKey.ConvertFromSshRsaToPkcs8`, `SshKey.ConvertErrors` and `SshKey.ConvertOfKeyLine` |
| SshKey.ConvertFromSshRsaToPkcs8 | nova/crypto.py:217-266 | the method, with its field loop and `_to_sequence`, returns or raises what Convert specifies |
| SshKey.ConvertErrors | nova/crypto.py:222-234 | "Unable to find the key" exactly when there is no second field; otherwise a Base64 error exactly when the field does not decode; otherwise `struct.error` exactly when the decoded blob cannot be cut into length-prefixed fields |
| SshKey.PartsToPem | nova/crypto.py:236-266 | definition of the conversion once the blob is cut into fields; its properties are stated in `SshKey.PartsToPemErrors` and `SshKey.PartsToPemIsPkcs8` |
| SshKey.PartsToPemErrors | nova/crypto.py:236-250 | once the blob is decoded and cut: `IndexError` on `parts[2]` exactly when there are fewer than three fields; with three or more, the `int('', 16)` `ValueError` exactly when `parts[1]` or `parts[2]` is empty; the missing-key and Base64 errors cannot occur |
| SshKey.ConvertOfKeyLine | nova/crypto.py:222-229 | on a key line `<type> <base64 blob> <comment>`, the conversion reads the second field and decodes it back to the blob, so the result is what the blob's fields give |
| SshKey.PartsToPemIsPkcs8 | nova/crypto.py:248-259 | with at least three non-empty fields, n is `parts[2]` and e is `parts[1]`, `parts[0]` is ignored, and the result is the PEM of the SubjectPublicKeyInfo of (n, e) |
| SshKey.BitStringOfDer | nova/crypto.py:253-254 | `'00' + bin(pklong)[2:]` is bit for bit the DER it came from, 8 bits per byte, because 0x30 starts with two zero bits |
| SshKey.BitStringOfBytes | nova/crypto.py:254 | a BIT STRING of whole bytes holds a zero unused-bits count and then the bytes |
| SshKey.Pkcs8Layout | nova/crypto.py:257-259 | the outer SEQUENCE holds the AlgorithmIdentifier {rsaEncryption, NULL}, then a BIT STRING whose content is 00 followed by the DER of SEQUENCE {n, e} |
| SshKey.AlgorithmBytes | nova/crypto.py:257-258 | the AlgorithmIdentifier encodes to 30 0D 06 09 … 05 00 |
| CryptoCa.Join | nova/crypto.py:89 | `os.path.join`: an absolute second part wins; otherwise the result starts with the first part and ends with the second |
| CryptoCa.CaFolder | nova/crypto.py:87-91 | definition of `ca_folder`; its properties are stated in `CryptoCa.CaFolderChoice`, `CryptoCa.ProjectFoldersDistinct` and `CryptoCa.FilesInFolder` |
| CryptoCa.CaFolderChoice | nova/crypto.py:87-91 | the root `ca_path` unless the project CA is on and the id is non-empty; then `<ca_path>/projects/<id>` |
| CryptoCa.ProjectFoldersDistinct | nova/crypto.py:87-91 | each project folder differs from the root folder and from every other project's folder |
| CryptoCa.FilesInFolder | nova/crypto.py:93-102 | `ca_path`, `key_path` and `crl_path` each lie inside `ca_folder` |
| CryptoCa.FetchCa | nova/crypto.py:105-112 | definition of `fetch_ca`; its properties are stated in `CryptoCa.FetchReadsTheNamedFile` and `CryptoCa.FetchIgnoresProjectWhenOff` |
| CryptoCa.FetchCrl | nova/crypto.py:180-188 | definition of `fetch_crl`; its properties are stated in `CryptoCa.FetchReadsTheNamedFile` and `CryptoCa.FetchIgnoresProjectWhenOff` |
| CryptoCa.FetchIgnoresProjectWhenOff | nova/crypto.py:105-112 | with the project CA off, the project id makes no difference: a missing CA file raises `CryptoCAFileNotFound` and a missing CRL file `CryptoCRLFileNotFound`, both with no project |
| CryptoCa.FetchReadsTheNamedFile | nova/crypto.py:105-112 | `fetch_ca`, and likewise `fetch_crl`, succeed exactly when the named file exists and return its content; otherwise they raise `CryptoCAFileNotFound` (`CryptoCRLFileNotFound`) naming the effective project |
| CryptoCa.SignCsrPlan | nova/crypto.py:445-451 | definition of the folder and project `sign_csr` chooses; its properties are stated in `CryptoCa.SignCsrFolder` |
| CryptoCa.SignCsrFolder | nova/crypto.py:445-451 | signs in `ca_folder(project_id)`, the root when the effective id is empty, and prepares a project folder exactly when signing in one |
| CryptoCa.Serial | nova/crypto.py:476 | the serial contains no `=` and no whitespace at either end |
| CryptoCa.SerialOfOutput | nova/crypto.py:474-476 | for `serial=<digits>` followed by whitespace, the serial is the digits |
| Fingerprint.ColonizePairs | nova/crypto.py:148 | a hex string of 2n characters (n ≥ 1) gives 3n − 1 characters, and the colons separate exactly its pairs |
| Fingerprint.ColonizeUncolonize | nova/crypto.py:148 | deleting the colons gives the hex string back |
| Fingerprint.HexlifyUncolonize | nova/crypto.py:145-148 | deleting the colons from a digest's colon form gives the digest's hex |
| Fingerprint.Md5Form | nova/crypto.py:145-148 | a 16-byte digest shows as 16 pairs, 47 characters |
| Fingerprint.GenerateFingerprint | nova/crypto.py:131-152 | definition of `generate_fingerprint`; its properties are stated in `Fingerprint.FingerprintErrors`, `Fingerprint.FingerprintOfFields` and `Fingerprint.FingerprintOfKeyLine` |
| Fingerprint.FingerprintErrors | nova/crypto.py:131-152 | no second field, or an ASCII second field that fails to decode, gives "failed to generate fingerprint"; a non-ASCII second field raises the plain `ValueError`, which escapes the function, exactly in that case; the unknown-type error occurs exactly for a line whose ASCII second field decodes and whose first field is none of `ssh-rsa`, `ssh-dss` and `ecdsa-sha2-nistp256` |
| Fingerprint.FingerprintOfKeyLine | nova/crypto.py:131-148 | for a key line of a known type, the result is the colon form of the digest of the decoded blob |
| Fingerprint.FingerprintOfFields | nova/crypto.py:131-148 | a line whose second field is ASCII Base64 of a blob and whose first names a known type gives the colon form of that blob's digest |
| Fingerprint.X509Fingerprint | nova/crypto.py:155-167 | fails exactly when openssl fails; otherwise the result has no `=` and no upper-case letter |
| Fingerprint.X509FingerprintOfOutput | nova/crypto.py:162-163 | for `<title>=<digest>` followed by whitespace, the result is the digest lower-cased |
| ComputeLock.GetLock | nova/compute/manager.py:1291-1297 | definition of `get_lock`; its properties are stated in `ComputeLock.CheckedCallGate` and `ComputeLock.CheckedCallUnknown` |
| ComputeLock.CheckedCall | nova/compute/manager.py:97-120 | definition of `checks_instance_lock`; its properties are stated in `ComputeLock.CheckedCallGate`, `ComputeLock.ResultDiscarded` and `ComputeLock.CheckedCallUnknown` |
| ComputeLock.CheckedCallGate | nova/compute/manager.py:105-120 | the wrapped method runs exactly when the caller is an admin or the instance is unlocked, and then returns None; otherwise False is returned and the state is unchanged |
| ComputeLock.ResultDiscarded | nova/compute/manager.py:116 | two methods with the same effect give the same outcome, whatever they return |
| ComputeLock.CheckedCallUnknown | nova/compute/manager.py:105 | an unknown instance raises before anything runs |
| ComputeImages.CheckImageSize | nova/compute/manager.py:336-387 | definition of `_check_image_size`; its properties are stated in `ComputeImages.CheckImageSizeLimit` |
| ComputeImages.CheckImageSizeLimit | nova/compute/manager.py:353-387 | no check (None) exactly when there is no size or `local_gb == 0`; `ImageTooLarge` exactly when the size exceeds `local_gb` GiB; otherwise the metadata is returned, and a size equal to the limit passes |
| ComputeImages.SnapshotSteps | nova/compute/manager.py:704-754 | definition of the steps of `snapshot_instance`; its properties are stated in `ComputeImages.SnapshotRules` |
| ComputeImages.SnapshotRules | nova/compute/manager.py:704-754 | an unknown type only raises; a known type is marked, snapshotted and unmarked first; a snapshot with a truthy rotation raises; a backup rotates with its rotation or raises without one |
| ComputeImages.PageAfter | nova/compute/manager.py:770-779 | a page after the last of the first n images is the next `pageSize` images of the listing |
| ComputeImages.FetchImages | nova/compute/manager.py:770-779 | concatenating pages until an empty one arrives yields the whole listing, in order |
| ComputeImages.DeleteExcess | nova/compute/manager.py:790-800 | the first `rotation` images are kept; the rest are popped from the tail, oldest first; a negative rotation is an index error |
| ComputeImages.RotateBackupsOf | nova/compute/manager.py:756-800 | a rotation ≥ 0 deletes exactly max(0, count − rotation) images, from the tail of the listing, and keeps the others in order; a negative rotation deletes every image and then raises `IndexError`, and only then |
| ComputePassword.Attempts | nova/compute/manager.py:817-858 | definition of the tries of `set_admin_password`, from a given try on; its properties are stated in `ComputePassword.AttemptsFacts` and `ComputePassword.SetAdminPasswordFacts` |
| ComputePassword.SetAdminPassword | nova/compute/manager.py:817-858 | the `for` loop produces what the try-by-try rules specify |
| ComputePassword.AttemptsFacts | nova/compute/manager.py:817-858 | from any try on: the driver is called at most the remaining number of times; a try that finds the instance not running raises without a call; every driver call but the last failed; all of them failed when "not running" was raised; the last one succeeded when nothing was raised |
| ComputePassword.SetAdminPasswordFacts | nova/compute/manager.py:817-858 | at most 10 driver calls; none for an instance that is not running; every driver call but the last failed; all of them failed when "not running" was raised; the last one succeeded when nothing was raised; "Internal error" and ERROR exactly when all 10 tries reached a failing driver |
| ComputeSync.ByName | nova/compute/manager.py:1896-1897 | definition of the dictionary from VM name to power state; its properties are stated in `ComputeSync.ByNameKeys` and `ComputeSync.ByNameLast` |
| ComputeSync.ByNameKeys | nova/compute/manager.py:1896-1897 | a name is a key of the VM dictionary exactly when some VM has it |
| ComputeSync.ByNameLast | nova/compute/manager.py:1896-1897 | the dictionary holds the state of the last VM of that name |
| ComputeSync.SyncPowerStates | nova/compute/manager.py:1886-1922 | a row of this host gets the hypervisor's state for its name, NOSTATE if that name is absent; exactly the rows whose state differed are written; other rows are unchanged |
| ComputeSync.SyncPowerStatesAgrees | nova/compute/manager.py:1886-1922 | afterwards every row of this host agrees with the hypervisor |
| ComputeSync.ReclaimQueuedDeletes | nova/compute/manager.py:1924-1936 | exactly the rows of this host in SOFT_DELETE whose `deleted_at` is at least the interval back are removed, and the other rows are unchanged; the source does this only when none of those rows is SHUTOFF (see "## Left out") |
| ComputeBdm.Classify | nova/compute/manager.py:256-296 | a row fails the assertion, or is skipped, swap, an ephemeral or a volume, each exactly under its own condition; the swap entry is the row's device name and `volume_size`, and the ephemeral entry is `{num: ephemeral_num(v), virtual_name: v, device_name, size: volume_size}` |
| ComputeBdm.SetupAll | nova/compute/manager.py:246-298 | definition of the row-by-row rules of `_setup_block_device_mapping`; its properties are stated in `ComputeBdm.SetupAllErrStays`, `ComputeBdm.SetupAllFails`, `ComputeBdm.SetupAllSwapSet`, `ComputeBdm.SetupAllSwapLast`, `ComputeBdm.SetupAllLists` and `ComputeBdm.RowCalls` |
| ComputeBdm.SetupBlockDeviceMapping | nova/compute/manager.py:246-298 | the loop produces what the row-by-row rules specify |
| ComputeBdm.SetupAllErrStays | nova/compute/manager.py:261 | once a row fails the assertion, the whole run fails with that error |
| ComputeBdm.SetupAllFails | nova/compute/manager.py:258-261 | the run fails exactly when some row is neither swap nor ephemeral, and then with the first such row's name |
| ComputeBdm.NoDeviceSkipped | nova/compute/manager.py:256-257 | removing a `no_device` row changes nothing |
| ComputeBdm.SetupAllSwapSet | nova/compute/manager.py:262-264 | `swap` is set exactly when some row is named `swap` |
| ComputeBdm.SetupAllSwapLast | nova/compute/manager.py:262-264 | `swap` comes from the last row named `swap` |
| ComputeBdm.SetupAllLists | nova/compute/manager.py:262-298 | the ephemerals, the mappings and the volume calls are those of the rows, in row order |
| ComputeBdm.SnapshotVolumeCreatedFirst | nova/compute/manager.py:273-296 | a row with a snapshot but no volume first has a volume created from the snapshot, then gets that volume attached |
| ComputeBdm.ExistingVolumeAttached | nova/compute/manager.py:285-296 | a row with a volume id creates nothing and attaches its own volume |
| ComputeBdm.RowCalls | nova/compute/manager.py:262-298 | in a successful run, each row's volume calls come as one block after those of the earlier rows |
| NWFilterFakes.Lookup | nova/tests/unit/virt/libvirt/test_firewall.py:50-53 | definition of `nwfilterLookupByName`; its properties are stated in `NWFilterFakes.DefineFails` and `NWFilterFakes.UndefineRemovesOne` |
| NWFilterFakes.DefineXml | nova/tests/unit/virt/libvirt/test_firewall.py:55-84 | definition of `filterDefineXMLMock`; its properties are stated in `NWFilterFakes.DefineNew`, `NWFilterFakes.RedefineSameUuid`, `NWFilterFakes.RedefineOtherUuid` and `NWFilterFakes.DefineFails` |
| NWFilterFakes.DefineNew | nova/tests/unit/virt/libvirt/test_firewall.py:69-77 | a new name adds exactly one entry, with the document's uuid or else a fresh one; nothing else changes |
| NWFilterFakes.RedefineSameUuid | nova/tests/unit/virt/libvirt/test_firewall.py:83-84 | a redefine with the stored uuid replaces only the document; names, count and uuid stay |
| NWFilterFakes.RedefineOtherUuid | nova/tests/unit/virt/libvirt/test_firewall.py:79-82 | a redefine with another uuid raises and leaves the registry as it was |
| NWFilterFakes.DefineFails | nova/tests/unit/virt/libvirt/test_firewall.py:55-84 | a define fails exactly on a uuid mismatch, changes nothing when it fails, and otherwise makes the document look-up-able |
| NWFilterFakes.Undefine | nova/tests/unit/virt/libvirt/test_firewall.py:66-67 | definition of `undefine` of a fake filter; its properties are stated in `NWFilterFakes.UndefineRemovesOne` |
| NWFilterFakes.UndefineRemovesOne | nova/tests/unit/virt/libvirt/test_firewall.py:66-67 | `undefine` deletes only its own name, one entry fewer, and a lookup of it then fails |
| NWFilterFakes.Fakes.constructor | nova/tests/unit/virt/libvirt/test_firewall.py:47-48 | the registry starts empty |
| NWFilterFakes.Fakes.NwfilterLookupByName | nova/tests/unit/virt/libvirt/test_firewall.py:50-53 | the fake's lookup is `Lookup` on its current registry, whose properties are stated in `NWFilterFakes.DefineFails` and `NWFilterFakes.UndefineRemovesOne` |
| NWFilterFakes.Fakes.FilterDefineXmlMock | nova/tests/unit/virt/libvirt/test_firewall.py:55-84 | the result and the new registry are those of DefineXml on the old registry |
| NWFilterFakes.Fakes.UndefineFilter | nova/tests/unit/virt/libvirt/test_firewall.py:66-67 | removes the named entry, or fails and leaves the registry unchanged |
| DefineOrder.DefineStep | nova/tests/unit/virt/libvirt/test_firewall.py:574-587 | definition of one `_filterDefineXMLMock` call of the order check; its properties are stated in `DefineOrder.DefineStepChecks` and `DefineOrder.DefineStepDepends` |
| DefineOrder.DefineStepChecks | nova/tests/unit/virt/libvirt/test_firewall.py:574-587 | a define passes exactly when all its references are defined; it then appends the name and leaves the other names' dependencies alone |
| DefineOrder.Accumulate | nova/tests/unit/virt/libvirt/test_firewall.py:577-584 | definition of the loop that rebuilds `recursive_depends`; its properties are stated in `DefineOrder.AccumulateOthers` and `DefineOrder.AccumulateDepends` |
| DefineOrder.AccumulateOthers | nova/tests/unit/virt/libvirt/test_firewall.py:577-584 | the loop extends only the defined name's dependency list |
| DefineOrder.AccumulateDepends | nova/tests/unit/virt/libvirt/test_firewall.py:577-584 | the defined name's dependencies are its references and their recursive dependencies |
| DefineOrder.DefineStepDepends | nova/tests/unit/virt/libvirt/test_firewall.py:574-587 | after one define, the filter's dependencies are exactly each reference and that reference's own dependencies |
| DefineOrder.FirstUndefinedAt | nova/tests/unit/virt/libvirt/test_firewall.py:578-582 | the reported reference is the first undefined one |
| DefineOrder.Checker.constructor | nova/tests/unit/virt/libvirt/test_firewall.py:565-572 | starts with the built-in filters defined, with no dependencies |
| DefineOrder.Checker.FilterDefineXml | nova/tests/unit/virt/libvirt/test_firewall.py:574-587 | the loop yields DefineStep's result and state; on failure `defined_filters` is unchanged |
| DefineOrder.DefineAll | nova/tests/unit/virt/libvirt/test_firewall.py:563-628 | definition of a run of defines through the order check; its properties are stated in `FirewallContracts.DhcpDepends` |
| FirewallContracts.SetupDocs | nova/tests/unit/virt/libvirt/test_firewall.py:594-628 | definition of the abstract document list the tests allow; its properties are stated in `FirewallContracts.DhcpDepends` and `FirewallContracts.MultinicBaseFilter` |
| FirewallContracts.InstanceFilterNameFresh | nova/tests/unit/virt/libvirt/test_firewall.py:595-596 | an instance filter name is none of the static or built-in names |
| FirewallContracts.InstanceFilterNameInjective | nova/tests/unit/virt/libvirt/test_firewall.py:721-724 | different NIC ids give differently named filters |
| FirewallContracts.DhcpDepends | nova/tests/unit/virt/libvirt/test_firewall.py:594-628 | the defines pass the order check; the interface filter depends on the three anti-spoofing filters, and on `allow-dhcp-server` exactly when the subnet has a DHCP server |
| FirewallContracts.DefineFilter | nova/tests/unit/virt/libvirt/test_firewall.py:644-654 | definition of one define by the driver, keeping the stored uuid; its properties are stated in `FirewallContracts.DefineFiltersSucceed` |
| FirewallContracts.DefineFilters | nova/tests/unit/virt/libvirt/test_firewall.py:644-654 | definition of defining a list of documents in order; its properties are stated in `FirewallContracts.DefineFiltersSucceed` |
| FirewallContracts.DefineFiltersSucceed | nova/tests/unit/virt/libvirt/test_firewall.py:644-654 | defining never fails; the registry holds the old and the defined names, each defined name with its last document's references, and the other names untouched |
| FirewallContracts.SetupBasicFiltering | nova/tests/unit/virt/libvirt/test_firewall.py:644-654 | definition of `setup_basic_filtering` over the abstract document list; its properties are stated in `FirewallContracts.SetupTwice`, `FirewallContracts.MultinicBaseFilter` and `FirewallContracts.UnfilterAfterSetup` |
| FirewallContracts.SetupTwice | nova/tests/unit/virt/libvirt/test_firewall.py:644-654 | running `setup_basic_filtering` twice succeeds both times, with the same filter count |
| FirewallContracts.MultinicBaseFilter | nova/tests/unit/virt/libvirt/test_firewall.py:707-733 | with several NICs, each NIC's filter references just `nova-base` or `nova-nodhcp`, according to its own DHCP server |
| FirewallContracts.UnfilterInstance | nova/tests/unit/virt/libvirt/test_firewall.py:630-642 | definition of `unfilter_instance`; its properties are stated in `FirewallContracts.UnfilterRemovesOnePerNic` and `FirewallContracts.UnfilterAfterSetup` |
| FirewallContracts.UnfilterRemovesOnePerNic | nova/tests/unit/virt/libvirt/test_firewall.py:630-642 | unfilter removes exactly the interfaces' filters, one per interface |
| FirewallContracts.UnfilterAfterSetup | nova/tests/unit/virt/libvirt/test_firewall.py:435-456 | after setup with one interface, unfilter leaves exactly one filter fewer |
| IptablesContracts.EmptyChainRules | nova/tests/unit/virt/libvirt/test_firewall.py:480-499 | emptying a chain removes its rules and keeps every other chain's rules |
| IptablesContracts.AddRulesRules | nova/tests/unit/virt/libvirt/test_firewall.py:480-499 | adding rules to a chain puts exactly those texts there |
| IptablesContracts.ReplaceChain | nova/tests/unit/virt/libvirt/test_firewall.py:470-499 | the chain exists and holds exactly the new texts; other chains are unchanged |
| IptablesContracts.RefreshProviderFwRules | nova/tests/unit/virt/libvirt/test_firewall.py:477-522 | definition of `refresh_provider_fw_rules`; its properties are stated in `IptablesContracts.ProviderChainReplaced` and `IptablesContracts.ProviderRuleCounts` |
| IptablesContracts.ProviderChainReplaced | nova/tests/unit/virt/libvirt/test_firewall.py:477-522 | each refresh leaves exactly as many provider rules as the current list has |
| IptablesContracts.ProviderRuleCounts | nova/tests/unit/virt/libvirt/test_firewall.py:468-522 | the chain exists after setup; the test's sequence of refreshes gives 0, 1, 2 and 1 provider rules |
| IptablesContracts.DecimalRoundTrip | nova/tests/unit/virt/libvirt/test_firewall.py:466 | the decimal form of an id reads back as the id |
| IptablesContracts.ChainName | nova/tests/unit/virt/libvirt/test_firewall.py:466 | definition of the instance chain name `inst-<id>`; its properties are stated in `IptablesContracts.ChainNameInjective` and `IptablesContracts.DecimalRoundTrip` |
| IptablesContracts.ChainNameInjective | nova/tests/unit/virt/libvirt/test_firewall.py:466 | different instance ids give different `inst-<id>` chains |
| IptablesContracts.ApplyInstanceFilter | nova/tests/unit/virt/libvirt/test_firewall.py:501-512 | definition of `prepare_instance_filter` and `apply_instance_filter` for one instance; its properties are stated in `IptablesContracts.OneProviderJump` |
| IptablesContracts.OneProviderJump | nova/tests/unit/virt/libvirt/test_firewall.py:501-512 | an instance chain has exactly one distinct jump to `provider` |
| IptablesContracts.DoRefreshSecurityGroupRules | nova/tests/unit/virt/libvirt/test_firewall.py:385-429 | rules are computed once per tracked instance and every `inst-<id>` chain is checked; only instances whose chain exists are refilled, so with all chains gone nothing is added |

## Left out

- The Base64 decoder is canonical: padded groups of four alphabet characters. Python's `b64decode` also discards non-alphabet characters and accepts some non-canonical input; the model treats that input as a failed decode.
- Whitespace, case and character classes cover ASCII only. This applies to `strip`, `lower`, `split(None)` and `isspace`.
- Foreign calls are parameters of the model:
  - paramiko's key parsing and digest (`get_fingerprint`);
  - the output of the `openssl` runs;
  - `uuid.uuid4()`;
  - the volume API;
  - `block_device.is_ephemeral` and `ephemeral_num`;
  - the image service's listing.
- File I/O is left out; the file system is a map from path to content. Temporary directories, `os.chdir`, `ensure_tree` and `_ensure_project_folder` are not modelled. `sign_csr` is modelled only as the folder it chooses.
- The state constants are plain datatypes. nova/compute/power_state.py, vm_states.py and task_states.py are not part of this model.
- The DB, RPC and notifier calls of the compute manager are not modelled:
  - DB rows are a map from id to record, and the updates are changes to that map;
  - `instance_destroy` removes the row;
  - the shutdown, network and volume clean-up steps of `_delete_instance` are not modelled;
  - `deleted_at` is a number of seconds, and a missing `deleted_at` is not modelled.
- ComputeImages.RotateBackupsOf: the listing's filter (instance uuid, backup type) is not modelled. The catalog is the already-filtered listing, newest first.
- `time.sleep`, greenthreads, the `time.time()` throttles and the `_last_host_check` and `_last_bw_usage_poll` fields are timing and floating-point clock details, and are not modelled.
- `get_console_output` is not modelled; it is transcoding through a codec library.
- ComputeBdm.SetupAll: a failed run does not report the volume calls already made. When row k fails `assert block_device.is_swap_or_ephemeral` (nova/compute/manager.py:261), the source has already made the `create`, `wait_creation`, `block_device_mapping_update`, `check_attach` and `_attach_volume_boot` calls of the earlier volume rows (nova/compute/manager.py:273-294). The model's `Err` carries only the error. Those calls are `Gather(CallPart, …)` of the rows before k, which `ComputeBdm.SetupAllLists` describes for a run that succeeds.
- ComputeBdm.Classify: a `virtual_name` of None and one of "" are treated alike, as Python's truthiness does. Errors raised by the volume API, such as `check_attach` failing, are not modelled.
- Exceptions are error values of a `Result`: `struct.error`, `IndexError`, `ValueError`, `binascii.Error`, `InvalidKeypair` and the others. Log messages are not modelled. An exception that escapes a function, such as the `ValueError` `b64decode` raises on non-ASCII text in `generate_fingerprint`, is an error value of its own.
- ComputeLock.CheckedCallGate: the wrapped method is a function from state to new state and result; its own exceptions are not modelled.
- DefineOrder.Checker.FilterDefineXml: on a failed reference check, the `recursive_depends` entry that was reset before the loop stays in its partly rebuilt state. The contract states only that `defined_filters` is unchanged.
- The libvirt nwfilter and iptables drivers (nova/virt/libvirt/firewall.py and nova/network/linux_net.py) are not part of this model. Their contracts are modelled abstractly, as the tests assert them:
  - filter documents are a name, an optional uuid and a list of `filterref` names, with no XML;
  - the driver's define reuses the uuid already stored under the name, as the real driver does for a redefine;
  - an instance chain's rules are the provider jump followed by other rules that do not mention `provider`;
  - a missing filter at unfilter time is an error, with no retries.
- IPv6 tables are not modelled; only `iptables.ipv4['filter']` is.
- ComputeSync.ReclaimQueuedDeletes: a reclaimable row whose `power_state` is SHUTOFF makes `_shutdown_instance` destroy the row and then raise (nova/compute/manager.py:521-524). The exception ends the loop at nova/compute/manager.py:1932, and the periodic task only logs it (nova/compute/manager.py:1841-1846), so the rows after it are not reclaimed in that pass. The model does not follow the listing's order and reclaims every matching row.
- The rule counts of `test_filters_for_instance_with_ip_v6` and `test_filters_for_instance_without_ip_v6` (nova/tests/unit/virt/libvirt/test_firewall.py:341-353), and the per-address counts of `test_multinic_iptables` (nova/tests/unit/virt/libvirt/test_firewall.py:355-383), are not modelled. They assert 2 IPv4 rules per instance, and 1·2·5+2 IPv4 and 1·1·5 IPv6 network rules. The rules are generated per address inside the iptables driver, which is not part of this model.
- The mox and mock plumbing of the tests, the `nwfilter_parameters` test and the flows behind `test_static_filters` are not modelled. They assert the iptables-save text format of a driver that is not part of this model.
- nova/tests/unit/pci/test_manager.py is not modelled. Its `PciDevTracker` implementation is not part of this model.
- Der.Encode covers only INTEGER, BIT STRING, NULL, OBJECT IDENTIFIER and SEQUENCE, the types the conversion uses. An element needing more than 126 length octets is an error value.
- SshKey.ConvertFromSshRsaToPkcs8: the PY3 `decode('ascii')` at nova/crypto.py:260-261 is the identity here, because Base64 output is ASCII.
