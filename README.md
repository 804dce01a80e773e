# rdmamap in Dafny

This is a model of `rdma_map.go`, the RDMA device discovery package. The
package answers three questions by reading sysfs:

- which RDMA devices exist;
- which character device nodes belong to a device (ucm, issm, umad,
  uverbs);
- which RDMA device stands behind a network device.

For the last question it has two routes:

- Ethernet: an exact match on the gid-table netdev files.
- InfiniBand: comparing the EUI-64 in the IPoIB hardware address with each
  device's decoded `node_guid`.

The operating system is replaced by values:

- The sysfs tree is an immutable `Tree`, a map from paths (sequences of
  segments) to directories and files.
  - A directory lists `DirEntry(name, isDir)` in `Readdir` order. `isDir`
    is what `Readdir`'s lstat reports, so the class root's device entries,
    which are symlinks, are not directories.
  - A file holds bytes.
- Opening a path that is absent fails.
- Reading a directory fails.
- Listing a file gives no entries, because `Readdir`'s error is ignored.
- The netlink lookup is an input, `Option<LinkAttrs>`.

Files:

- `wrappers.dfy`: `Option` and `Result`.
- `sys_tree.dfy` (module `SysTree`): the tree, the sysfs paths, the errors,
  and Go's `string(data)`, `strings.Contains` and `strings.TrimSuffix(s, "\n")`.
- `node_guid.dfy` (module `NodeGuid`): the `node_guid` decoder `getNodeGuid`.
  - Its byte loop is proved against the spec function `DecodeGuid`.
  - `DecodeGuid` undoes the colon-hex rendering `Render`: decoding a
    rendering plus a final byte gives the GUID back. `Render` is only a
    right inverse, since the decoder also accepts upper-case digits and
    misplaced or missing colons.
- `device_enumerator.dfy` (module `DeviceEnumerator`): `GetRdmaDeviceList`,
  `getPorts` and `getNetdeviceIds` as loops. Each is proved equal to a
  filtering function, and the filtering functions have membership and
  order lemmas.
- `char_devices.dfy` (module `CharDevices`): `isDirForRdmaDevice`,
  `getCharDevice` and `GetRdmaCharDevices`.
- `eth_matcher.dfy` (module `EthMatcher`): `isNetdevForRdma` and the
  triple-nested first-match loop `getRdmaDeviceForEth`.
- `ib_matcher.dfy` (module `IbMatcher`): `getRdmaDeviceForIb`, where a
  failing node GUID ends the walk with an error.
- `resolver.dfy` (module `Resolver`): `GetRdmaDeviceForNetdevice`, the
  dispatch on the encapsulation type.

Go panics are preconditions:

- `HardwareAddr[12:]` on an address shorter than 12 bytes.
- `data[:len(data)-1]` on an empty `node_guid` file. The InfiniBand walk
  requires `WalkSafe`: no `node_guid` file that the walk actually reads is
  empty.

Three behaviours of the code worth noting:

- The InfiniBand EUI-64 is `HardwareAddr[12:]`, every byte from offset 12
  on, however long the address is. It equals the address's last 8 bytes
  only on a 20-byte IPoIB address.
- A `node_guid` that cannot be read or decoded ends the InfiniBand search
  with that error, rather than only making that one device unmatchable.
- The decoder checks neither the length nor the shape of the file. It
  returns `(digits + 1) / 2` bytes. That is 8 for 15 or 16 digits, so a
  16-digit file without its newline still gives 8 bytes, the last with its
  low half cleared (`MissingNewlineTruncates`).

Strings: a Dafny `string` here stands for a Go string as a sequence of
bytes, one `char` per byte (every `char` below 256). `SysTree.Text` turns
file bytes into such a string, and device, port, index and netdev names are
meant in the same encoding: the netdev `é` is the two-character string
`"\u00C3\u00A9"`, its UTF-8 bytes. Equality, `strings.Contains` and
`strings.TrimSuffix` are byte-wise in Go, so they are exact under this
convention.

## Model

| member | source | states |
|---|---|---|
| SysTree.Text | rdma_map.go:208 | `string(data)` has one character per byte, each equal to that byte |
| SysTree.ContainsTransitive | rdma_map.go:66 | a substring of a substring of a text is a substring of that text |
| NodeGuid.HexValue | rdma_map.go:258 | a successfully parsed hex digit is a nibble (below 16) |
| NodeGuid.NibblesShape | rdma_map.go:254-261 | the digit scan succeeds iff every byte is `:` or a hex digit; on success it yields one nibble per hex digit, each below 16 |
| NodeGuid.Pack | rdma_map.go:262-266 | packing n nibbles high-then-low yields ceil(n/2) bytes |
| NodeGuid.DecodeGuidShape | rdma_map.go:252-269 | decoding (final byte dropped) succeeds iff every remaining byte is `:` or hex; the result has ceil(hex-digit count / 2) bytes |
| NodeGuid.GetNodeGuid | rdma_map.go:236-270 | the loop with counter `j` (append `c<<4` on even `j`, OR `c` into `nodeGuid[j/2]` on odd `j`) returns exactly the read error or the decoding of the file |
| NodeGuid.ScanIsNibbles | rdma_map.go:254-261 | the loop's byte-by-byte scan of the first `i` bytes is the digit scan of that prefix |
| NodeGuid.ScanFailureSticks | rdma_map.go:258-261 | a bad byte met by the loop decides the result for the whole file (the early return) |
| NodeGuid.PackStep | rdma_map.go:262-267 | one turn of the loop, append on even `j` or OR into `nodeGuid[j/2]` on odd `j`, packs exactly one more nibble |
| NodeGuid.PackPushHigh | rdma_map.go:262-263 | an even-position nibble appends a new byte holding it in the high half |
| NodeGuid.PackFillLow | rdma_map.go:264-265 | an odd-position nibble is OR-ed into the last byte and nothing else changes |
| NodeGuid.NibblesFailureSticks | rdma_map.go:258-261 | once a bad byte is met, later bytes do not change the error (early return) |
| NodeGuid.NibblesAppend | rdma_map.go:254-268 | scanning a concatenation scans the pieces one after the other |
| NodeGuid.DecodeFailsAtFirstBadByte | rdma_map.go:252-261 | decoding fails with the first byte that is neither `:` nor hex |
| NodeGuid.HexDigit | rdma_map.go:258 | the rendered digit of a nibble parses back to that nibble and is not `:` |
| NodeGuid.Render | rdma_map.go:252-269 | the lower-case colon-hex rendering, the decoder's partner: `RoundTrip` proves that decoding a rendering plus a final byte gives the GUID back; its own contract only bounds the length (a non-empty GUID renders to at least two digits) |
| NodeGuid.Split | rdma_map.go:262-266 | splitting a GUID into nibbles gives two per byte |
| NodeGuid.PackSplit | rdma_map.go:262-266 | packing the nibbles of a GUID gives the GUID back |
| NodeGuid.NibblesOfPieces | rdma_map.go:254-261 | a one- or two-digit group, with or without a leading `:`, scans to its nibbles |
| NodeGuid.NibblesOfRender | rdma_map.go:254-261 | scanning the rendering of a GUID yields its nibbles, high first |
| NodeGuid.SplitSnoc | rdma_map.go:262-266 | the nibbles of `g + [b]` are those of `g` followed by b's high and low halves |
| NodeGuid.RoundTrip | rdma_map.go:252-269 | decoding the colon-hex rendering of any GUID plus one final byte returns that GUID |
| NodeGuid.MissingNewlineTruncates | rdma_map.go:252 | a file without its final newline loses the last digit: the last byte decodes with its low half cleared |
| NodeGuid.TruncatedSingle | rdma_map.go:252-263 | the truncation for a one-byte GUID: its single byte comes back with the low half cleared |
| NodeGuid.TruncatedLast | rdma_map.go:252-266 | the truncation for a longer GUID: all bytes but the last come back intact, the last with its low half cleared |
| NodeGuid.TruncatedOne | rdma_map.go:252-263 | a single digit plus a final byte decodes to that digit in the high half |
| NodeGuid.TruncatedMore | rdma_map.go:252-266 | a rendering followed by `:`, one digit and a final byte decodes to the GUID plus a half-filled byte |
| NodeGuid.ExampleRender | rdma_map.go:252-269 | the example GUID renders as the example file without its newline |
| NodeGuid.ExampleDecodes | rdma_map.go:252-269 | `00:1b:21:aa:ff:cc:dd:01\n` decodes to `[0x00,0x1b,0x21,0xaa,0xff,0xcc,0xdd,0x01]` |
| DeviceEnumerator.NonDirNames | rdma_map.go:43-48 | the names of the non-directory entries, in listing order (membership and order in the two lemmas below); never more names than entries |
| DeviceEnumerator.EntryNames | rdma_map.go:160-165 | the entry names other than `.` and `..`, in listing order (membership and order in the two lemmas below); never more names than entries |
| DeviceEnumerator.NonDirNamesMembers | rdma_map.go:43-48 | a name is listed iff some entry with that name is not a directory |
| DeviceEnumerator.EntryNamesMembers | rdma_map.go:182-187 | a name is listed iff it is an entry's name other than `.` and `..` |
| DeviceEnumerator.NonDirNamesAppend | rdma_map.go:43-48 | the device filter keeps listing order |
| DeviceEnumerator.EntryNamesAppend | rdma_map.go:160-165 | the `.`/`..` filter keeps listing order |
| DeviceEnumerator.GetRdmaDeviceList | rdma_map.go:34-50 | the loop returns exactly the non-directory entries of the class root, in order, and nil when the root is absent |
| DeviceEnumerator.ListEntryNames | rdma_map.go:153-166 | the shared listing loop returns nil when the directory cannot be opened, else its entries minus `.` and `..` in order |
| DeviceEnumerator.GetPorts | rdma_map.go:149-167 | the ports of a device, in order, without `.`/`..`, and nil when the ports directory is absent |
| DeviceEnumerator.GetNetdeviceIds | rdma_map.go:169-189 | the gid netdev indices of a port, in order, without `.`/`..`, and nil when the directory is absent |
| CharDevices.IsDirForRdmaDevice | rdma_map.go:52-67 | a directory is owned only if its `ibdev` file exists, is readable and is at least as long as the device name |
| CharDevices.OwnershipCoversSubstrings | rdma_map.go:52-67 | an `ibdev` file that owns a directory for a device name owns it for every substring of that name (`strings.Contains`) |
| CharDevices.FirstQualifyingIsFirst | rdma_map.go:78-91 | nothing is found iff no entry qualifies; a found name is that of a qualifying entry with no qualifying entry before it |
| CharDevices.CharDevice | rdma_map.go:69-94 | an unopenable class dir returns its open error; a found device file lies under `/dev/infiniband/` |
| CharDevices.CharDeviceFound | rdma_map.go:69-94 | the search succeeds iff the class dir opens and some listed entry qualifies, and then returns `/dev/infiniband/` + that entry's name |
| CharDevices.GetCharDevice | rdma_map.go:69-94 | the scan loop (skipping `.`/`..`, non-matching prefixes and unowned directories) returns exactly `CharDevice` |
| CharDevices.Successes | rdma_map.go:128-146 | the values of the successful results, in order (membership and order in the lemmas below); never more values than results |
| CharDevices.SuccessesMembers | rdma_map.go:128-146 | a path is kept iff some category search returned it |
| CharDevices.SuccessesAppend | rdma_map.go:128-146 | kept results stay in category order |
| CharDevices.SuccessesOfFour | rdma_map.go:128-146 | the kept results of the four searches are each search's path if it succeeded, in category order |
| CharDevices.GetRdmaCharDevices | rdma_map.go:126-147 | the result is the successful searches in the order ucm, issm, umad, uverbs; at most four paths, all under `/dev/infiniband/` |
| CharDevices.FoundPathsAreDeviceNodes | rdma_map.go:89-90 | every path found by the four searches lies under `/dev/infiniband/` |
| CharDevices.SubstringOwnership | rdma_map.go:66 | ownership is a substring test: an `ibdev` holding `mlx5_10` claims the directory for `mlx5_1` too |
| EthMatcher.IsNetdevForRdmaExact | rdma_map.go:191-213 | an index file matches iff it is readable and holds exactly the name plus a newline, or the bare name when the name does not end in a newline |
| EthMatcher.FirstBindingIsFirst | rdma_map.go:220-233 | no device is found iff none binds the netdev; a found device binds it and no earlier device does |
| EthMatcher.GetRdmaDeviceForEth | rdma_map.go:215-234 | the triple loop returns the first binding device in device, port, index order, `""` when none binds, and never an error |
| EthMatcher.DeviceHasNetdev | rdma_map.go:222-231 | the loop over a device's ports reports a match iff some port binds the netdev |
| EthMatcher.PortHasNetdev | rdma_map.go:224-230 | the loop over a port's netdev indices reports a match iff some index file names the netdev |
| EthMatcher.NoIndexBinds | rdma_map.go:225-230 | a port none of whose listed indices matches does not bind the netdev |
| EthMatcher.NoPortBinds | rdma_map.go:223-231 | a device none of whose listed ports binds the netdev does not bind it |
| EthMatcher.FirstBindingSkips | rdma_map.go:221-232 | devices that do not bind can be skipped without changing the answer |
| EthMatcher.ExampleListings | rdma_map.go:220-224 | the example tree lists device `mlx5_0`, port `1` and index `0` |
| EthMatcher.ExactMatchOnly | rdma_map.go:208 | a file holding `eth0\n` matches `eth0` but not `eth0 ` |
| EthMatcher.ExampleOwnsEth0 | rdma_map.go:215-234 | in the example tree `eth0` resolves to `mlx5_0` |
| EthMatcher.ExampleOwnsNoPaddedName | rdma_map.go:215-234 | in the example tree nothing owns `eth0 ` |
| IbMatcher.IbSearchOutcome | rdma_map.go:277-287 | `None` iff every device has a GUID different from the EUI-64; a found device has an equal GUID and every earlier one a different GUID; an error is the error of a failing GUID that every earlier device passed |
| IbMatcher.GetRdmaDeviceForIb | rdma_map.go:272-288 | the loop walks the devices in order and stops at the first whose GUID either cannot be obtained (returning that error) or equals `HardwareAddr[12:]` (returning that device); `""` when every GUID differs |
| IbMatcher.RenderedGuidMatches | rdma_map.go:279-284 | a reached device whose `node_guid` holds the rendering of the EUI-64 plus a newline is matched |
| Resolver.DeviceForNetdevice | rdma_map.go:291-305 | a resolved name is a listed RDMA device bound to the netdev by the chosen route; it fails iff the link is missing, the encapsulation is unknown, or the InfiniBand search fails on some listed device's GUID; a missing link reports `LinkNotFound` |
| Resolver.GetRdmaDeviceForNetdevice | rdma_map.go:291-305 | the dispatch returns exactly `DeviceForNetdevice`: `ether` to the Ethernet matcher, `infiniband` to the InfiniBand matcher, any other type an error |

## Left out

- File descriptors (`os.Open`, `OpenFile`, `Seek`, `Close`): each open and read is a lookup in the immutable tree, and a failure is an absent path or the wrong kind of node.
- `Readdir` errors other than listing a file, and partial reads: the tree has no such states.
- `netlink.LinkByName` is a foreign call into the kernel. Its result is the `link` parameter of `GetRdmaDeviceForNetdevice`, and its error is reduced to `LinkNotFound`.
- `filepath.Join` cleaning (`..` or `/` inside names) is not modelled: paths are sequences of segments, and char-device paths are plain concatenation with `/dev/infiniband/`.
- `strconv.ParseUint` is reduced to a hex-digit-to-nibble function that fails on any other byte. Its error value is reduced to `BadHexDigit`.
- The `fmt.Errorf` messages are reduced to the `NoCharDevice` and `UnknownDeviceType` constructors.
- Go panics are not modelled as behaviour. They are preconditions: `|hw| >= 12` and `WalkSafe`.
- IbMatcher.GetRdmaDeviceForIb: `WalkSafe` excludes every tree in which the walk reaches an empty `node_guid` file, where the source panics.
- UTF-8 encoding of names is not modelled: a name is already its Go byte string, one `char` per byte, so a `string` holding a character of 256 or above has no Go counterpart and matches no file content.
- Go's distinction between a nil and an empty slice is not kept: both are `[]`.
- The three nested loops of `getRdmaDeviceForEth` are one method per level (`GetRdmaDeviceForEth`, `DeviceHasNetdev`, `PortHasNetdev`); the first `return dev` becomes a `true` passed up each level, with the same order of visits and the same early exit.
