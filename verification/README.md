# WireGuard for Android: a verified model of its core

This project models the parts of the repository that compute something with a precise meaning, and
proves that they compute it. It is written in Dafny 4.11 and needs nothing but Dafny:
`dafny verify dfyconfig.toml` checks all of it.

| files | what they model |
|---|---|
| `Numbers`, `Masks`, `Wrappers` | positional numbers, bitwise operators on signed words, `Option` |
| `Ladder` | X25519 as section 5 of RFC 7748 defines it, on integers modulo 2^255 - 19 |
| `JavaLimbs`, `JavaCurve` | `Curve25519.java`: ten 26-bit limbs, overwritten in place |
| `EmbeddedLimbs`, `EmbeddedCurve` | the curve code of the embeddable C library: sixteen signed 16-bit limbs |
| `PublicKeyAgreement` | both of them on the same key |
| `Netlink`, `WgWire`, `SetDevice` | `netlink.h` and `kernel_set_device`: a device written into bounded messages, byte by byte |
| `KernelFold` | what the messages mean to a device |
| `Coalesce`, `DumpRoundTrip` | `coalesce_peers` on linked lists, and the entries of a dump |
| `ReadDevice` | the lists built from the messages and coalesced, from bytes to pointers |
| `SyncConf` | `sync_conf` |
| `Characters`, `IpText`, `HighlightValues` | the highlighter's validators of single values |
| `HighlightSpec` | the spans of a text, read line by line |
| `Highlighter` | the highlighter's state machine, against those spans |
| `KeyText`, `KeyCodecs`, `HexCodecs` | base64 and hexadecimal keys in C and Java |
| `ElfCleaner`, `SetUsers` | two in-place or streaming transformations of tables and ranges |
| `GoBackend` | the tunnel state machine over the Go handle table |
| `ConfigText`, `WgConfig`, `ConfigRoundTrip` | the Java configuration text |
| `SplitTunnel`, `SplitTunnelLines` | the split-tunnel rewrite of such a text, and the lines it sees |
| `SplitTunnelReading`, `SplitTunnelOutcome`, `SplitTunnelText` | what the parser makes of the rewritten text |
| `SplitTunnelExamples` | texts that the rewrite breaks |

Machine integers are explicit: `int32`, `int64`, `uint8`, `uint16` and the like are subset types, so an
overflow the source could have is a failed proof here; `x & (2^n - 1)` and `x >> n` are the Euclidean
remainder and quotient; the other bitwise operators on limbs are those of `Masks`, in two's complement. The
key coders use bit-vectors.

Inputs that come from outside the code are parameters: what `ipc_get_device` finds, the answers of Android
and of the Go device, `qsort`, the uid lists, the chosen applications in sorted order, and the parsers of
single addresses, endpoints, keys and integers in Java configurations.

## What turned out

Where the code does not do what it is for, the model keeps the code and a lemma says exactly when it does.

- `eval` reduces the peer's point with two trial subtractions. They reduce a 256-bit number if and only if
  it is below 2^256 - 19 (`JavaLimbs.QuickReduceTwice`). It keeps the top bit, which RFC 7748 masks: the
  same point is read if and only if that bit is clear (`Ladder.UnmaskedU`).
- `coalesce_peers` follows a null pointer if and only if, in one run of entries with the same key, an entry
  with allowed IPs is followed by one without and that by yet another (`Coalesce.SucceedsIffNoGap`).
- `sync_conf` removes a peer that the file keeps if and only if the device has one of the file's keys twice
  (`SyncConf.KeepsIffDistinct`); the set of keys is right all the same.
- `is_valid_ipv6` reads the byte behind its span. When that byte is a colon, it also accepts up to seven
  groups without `::` (`IpText.IsValidIpv6`, `IpText.CutOffIsNoAddress`). No caller has a colon there.
- Java's base64 masks are exact below 256. A character c of 256 or more passes if and only if its low byte
  is in the alphabet, with value v, and v + 1 has a bit in common with the ones below the lowest bit of
  c's high byte; those bits less one are then its value (`KeyCodecs.DecodeCharJava`). So `fromBase64`
  differs from RFC 4648 exactly on the strings it accepts that have such a character
  (`KeyCodecs.DiffersIffStray`); U+022B passes for `A` (`KeyCodecs.StrayKey`).
- Java's hexadecimal masks let every character of 256 or more pass but U+0130 to U+0139
  (`HexCodecs.NibbleDecodesJava`), and `fromHex` differs from the table exactly on the strings of 64
  characters that pass and of which one is 256 or more (`HexCodecs.HexDiffersIffStray`).
- `set_users` loses uid 99999 if and only if the last excluded uid is 99998 (`SetUsers.ComplementIffNotLast`).
- `toWgQuickString` prints no DNS search domain unless there is a DNS server
  (`ConfigRoundTrip.RoundTripIffServers`).
- The split-tunnel rewrite sees an application line of a text that parses if and only if it has exactly one
  blank before `=` and nothing in front that only Java trims (`SplitTunnelLines.SeenIff`), and a `[Peer]` only
  without a comment (`SplitTunnelLines.AgreesIff`). The rewritten text parses if and only if nothing is
  inserted, or the last header before the insertion is `[Interface]` and the applications of the lines it did
  not see, with the chosen ones, do not fill both lists (`SplitTunnelOutcome.RewriteOutcome`). The lists are
  exactly the chosen ones if and only if the new line comes into an interface and the unseen lines list chosen
  applications only (`SplitTunnelText.ExactIff`). `SplitTunnelExamples` has a text that becomes unreadable with
  one mode and keeps an application it should have lost with the other, and one where the new line lands in
  a peer.

## Model

| member | source | states |
|---|---|---|
| `Ladder.DeferredSwapsAgree` | tunnel/src/main/java/com/wireguard/crypto/Curve25519.java:242-294 | swapping only when the bit changes, and once more at the end, leaves the points where swapping before and after every bit leaves them, for every scalar, point and number of bits |
| `Ladder.UnmaskedU` | tunnel/src/main/java/com/wireguard/crypto/Curve25519.java:107-126 | reading all 256 bits of the u-coordinate gives the residue that RFC 7748 reads if and only if the top bit is clear |
| `JavaLimbs.QuickReduceOnce` | tunnel/src/main/java/com/wireguard/crypto/Curve25519.java:468-489 | one trial subtraction reduces every value below 2p modulo p |
| `JavaLimbs.QuickReduceTwice` | tunnel/src/main/java/com/wireguard/crypto/Curve25519.java:122-126 | two trial subtractions reduce a 256-bit value modulo p if and only if it is below 2^256 - 19 |
| `JavaCurve.Curve25519.constructor` | tunnel/src/main/java/com/wireguard/crypto/Curve25519.java:56-74 | all temporaries are distinct arrays of the right size, with `t1[19]` zero |
| `Masks.MaskedSwap` | tunnel/src/main/java/com/wireguard/crypto/Curve25519.java:83-90 | for words of any width, exclusive-or with the masked difference exchanges two words or leaves them |
| `Masks.MaskedSelect` | tunnel/src/main/java/com/wireguard/crypto/Curve25519.java:483-488 | for words of any width, two complementary masks and an or select one of two words |
| `JavaCurve.Curve25519.CarryInto` | tunnel/src/main/java/com/wireguard/crypto/Curve25519.java:473-477 | adding a small number through ten limbs keeps the value, limbs and carry together, without overflow |
| `JavaCurve.Curve25519.ReduceQuick` | tunnel/src/main/java/com/wireguard/crypto/Curve25519.java:468-489 | for any ten limbs, x becomes the result of the trial subtraction, with `t2` as scratch |
| `JavaCurve.Curve25519.Select` | tunnel/src/main/java/com/wireguard/crypto/Curve25519.java:483-488 | combining x and t with complementary masks, limb by limb, keeps all of x or takes all of t |
| `JavaCurve.Curve25519.Add` | tunnel/src/main/java/com/wireguard/crypto/Curve25519.java:200-208 | canonical limbs of x + y mod p, without overflow, also when the result is an operand |
| `JavaCurve.Curve25519.Sub` | tunnel/src/main/java/com/wireguard/crypto/Curve25519.java:168-191 | canonical limbs of x - y mod p, also when the result is an operand |
| `JavaCurve.Curve25519.SubLimbs` | tunnel/src/main/java/com/wireguard/crypto/Curve25519.java:173-177 | ten limbs and a borrow of x - y, also when the result is an operand |
| `JavaCurve.Curve25519.FoldBorrow` | tunnel/src/main/java/com/wireguard/crypto/Curve25519.java:184-190 | subtracting 19 after a borrow, with the borrow that leaves |
| `JavaCurve.Curve25519.MulA24` | tunnel/src/main/java/com/wireguard/crypto/Curve25519.java:335-345 | canonical limbs of 121665 * x mod p |
| `JavaCurve.Curve25519.ScaleInto` | tunnel/src/main/java/com/wireguard/crypto/Curve25519.java:337-343 | eleven limbs of exactly 121665 * x |
| `JavaCurve.Curve25519.StreamHigh` | tunnel/src/main/java/com/wireguard/crypto/Curve25519.java:422-431 | the high half is streamed 26 bits at a time, 19 times it is added below, and the int arithmetic never overflows |
| `JavaCurve.Curve25519.PropagateCarry` | tunnel/src/main/java/com/wireguard/crypto/Curve25519.java:432-440 | the carry goes through the limbs a short high half does not reach and none is lost |
| `JavaCurve.Curve25519.FoldHigh` | tunnel/src/main/java/com/wireguard/crypto/Curve25519.java:418-440 | x becomes (x mod 2^255) + 19 * (x div 2^255) |
| `JavaCurve.Curve25519.Reduce` | tunnel/src/main/java/com/wireguard/crypto/Curve25519.java:417-460 | the result is the canonical representative of x modulo p |
| `JavaCurve.Curve25519.Row` | tunnel/src/main/java/com/wireguard/crypto/Curve25519.java:309-315 | one row adds x[i] * y at its weight; the last column of the row is stored, not added |
| `JavaCurve.Curve25519.Product` | tunnel/src/main/java/com/wireguard/crypto/Curve25519.java:304-315 | the columns are the exact product and `t1[19]` stays zero |
| `JavaCurve.Curve25519.CarryColumns` | tunnel/src/main/java/com/wireguard/crypto/Curve25519.java:317-323 | twenty 26-bit digits of the same number |
| `JavaCurve.Curve25519.Mul` | tunnel/src/main/java/com/wireguard/crypto/Curve25519.java:303-327 | canonical limbs of x * y mod p, also when the result is an operand |
| `JavaCurve.Curve25519.Pow250` | tunnel/src/main/java/com/wireguard/crypto/Curve25519.java:353-383 | x^(2^250 - 1) mod p from the repeated pattern |
| `JavaCurve.Curve25519.FillPattern` | tunnel/src/main/java/com/wireguard/crypto/Curve25519.java:375-382 | the shifted patterns fill the gaps: the exponent is multiplied by 1023 |
| `JavaCurve.Curve25519.Recip` | tunnel/src/main/java/com/wireguard/crypto/Curve25519.java:391-407 | x^(p - 2) mod p |
| `JavaCurve.Curve25519.CSwap` | tunnel/src/main/java/com/wireguard/crypto/Curve25519.java:83-90 | masking the exclusive-or of the limbs and applying it to both swaps the two arrays or leaves them |
| `JavaCurve.Curve25519.LadderStep` | tunnel/src/main/java/com/wireguard/crypto/Curve25519.java:255-273 | the four coordinates become those of one step of the RFC 7748 ladder, through all the shared temporaries |
| `JavaCurve.Curve25519.EvalCurve` | tunnel/src/main/java/com/wireguard/crypto/Curve25519.java:238-294 | clamping on the fly and deferred swaps: the coordinates are those of the RFC 7748 ladder over the decoded scalar |
| `JavaCurve.Curve25519.Unpack` | tunnel/src/main/java/com/wireguard/crypto/Curve25519.java:108-120 | the limbs hold the value of the 32 little-endian bytes |
| `JavaCurve.Curve25519.LoadPoint` | tunnel/src/main/java/com/wireguard/crypto/Curve25519.java:105-129 | x_1 is the canonical point, 9 when there is none |
| `JavaCurve.Curve25519.Pack` | tunnel/src/main/java/com/wireguard/crypto/Curve25519.java:146-154 | the 32 bytes at the offset are the little-endian digits of x_2 and no other byte changes |
| `JavaCurve.Curve25519.Eval` | tunnel/src/main/java/com/wireguard/crypto/Curve25519.java:101-159 | the result is the encoding of the scalar multiple of RFC 7748, and nothing outside its 32 bytes changes |
| `EmbeddedCurve.Carry` | tunnel/tools/wireguard-tools/contrib/embeddable-wg-library/wireguard.c:1569-1577 | the digits of the value below 2^256, plus 38 times the rest on the first limb, for limbs up to 2^62 of either sign |
| `EmbeddedCurve.Row` | tunnel/tools/wireguard-tools/contrib/embeddable-wg-library/wireguard.c:1646-1649 | one row of the product, within int64 |
| `EmbeddedCurve.Product` | tunnel/tools/wireguard-tools/contrib/embeddable-wg-library/wireguard.c:1644-1649 | 31 columns whose value is the exact product |
| `EmbeddedCurve.Fold` | tunnel/tools/wireguard-tools/contrib/embeddable-wg-library/wireguard.c:1650-1651 | 38 times the high columns on the low ones |
| `EmbeddedCurve.MultMod` | tunnel/tools/wireguard-tools/contrib/embeddable-wg-library/wireguard.c:1641-1657 | from limbs up to 2^18 to tight limbs, and the residue is the product of the residues; the output may be an operand |
| `EmbeddedCurve.Add` | tunnel/tools/wireguard-tools/contrib/embeddable-wg-library/wireguard.c:1625-1631 | the sum of tight limbs is small enough for `multmod` and has the right residue |
| `EmbeddedCurve.Subtract` | tunnel/tools/wireguard-tools/contrib/embeddable-wg-library/wireguard.c:1633-1639 | the same for the difference |
| `EmbeddedCurve.Invert` | tunnel/tools/wireguard-tools/contrib/embeddable-wg-library/wireguard.c:1659-1673 | x^(p - 2) mod p by 254 squarings skipping bits 2 and 4 |
| `EmbeddedCurve.CSwap` | tunnel/tools/wireguard-tools/contrib/embeddable-wg-library/wireguard.c:1579-1593 | the same with 64-bit limbs and the mask `~(b - 1)`: swap or not, by the bit |
| `EmbeddedCurve.SubtractP` | tunnel/tools/wireguard-tools/contrib/embeddable-wg-library/wireguard.c:1605-1612 | t - p in digits, and the borrow tells whether t was below p |
| `EmbeddedCurve.TrialSubtract` | tunnel/tools/wireguard-tools/contrib/embeddable-wg-library/wireguard.c:1604-1614 | p is subtracted if and only if it fits |
| `EmbeddedCurve.ToBytes` | tunnel/tools/wireguard-tools/contrib/embeddable-wg-library/wireguard.c:1615-1618 | the 32 little-endian bytes of the value |
| `EmbeddedCurve.Pack` | tunnel/tools/wireguard-tools/contrib/embeddable-wg-library/wireguard.c:1595-1623 | the bytes of the one representative below p |
| `EmbeddedCurve.LadderStep` | tunnel/tools/wireguard-tools/contrib/embeddable-wg-library/wireguard.c:1694-1711 | the reordered formulas are one step of the RFC 7748 ladder at the base point, and the limbs stay tight |
| `EmbeddedCurve.ClampKey` | tunnel/tools/wireguard-tools/contrib/embeddable-wg-library/wireguard.c:1675-1679 | the clamping of RFC 7748 |
| `EmbeddedCurve.RunLadder` | tunnel/tools/wireguard-tools/contrib/embeddable-wg-library/wireguard.c:1690-1714 | swapping around every bit, 255 of them, is the ladder |
| `EmbeddedCurve.WgGeneratePublicKey` | tunnel/tools/wireguard-tools/contrib/embeddable-wg-library/wireguard.c:1681-1727 | the encoding of the scalar multiple of 9, for every private key |
| `PublicKeyAgreement.PublicKeys` | tunnel/src/main/java/com/wireguard/crypto/Key.java:201-205 | for every private key, the Java and the C code give the same 32 bytes, those of X25519 at the base point |
| `PublicKeyAgreement.SharedSecret` | tunnel/src/main/java/com/wireguard/crypto/Curve25519.java:101-159 | for every private key and every point with the top bit clear, `eval` is X25519 of RFC 7748 |
| `Netlink.Message.Put` | tunnel/tools/wireguard-tools/src/netlink.h:305-319 | the message grows by the attribute with its length, type and padding, and nothing before it changes |
| `Netlink.Message.PutCheck` | tunnel/tools/wireguard-tools/src/netlink.h:345-352 | the attribute is put if and only if it fits, else the message stays as it is |
| `Netlink.Message.NestStart` | tunnel/tools/wireguard-tools/src/netlink.h:336-343 | room for a header whose type is set |
| `Netlink.Message.NestEnd` | tunnel/tools/wireguard-tools/src/netlink.h:380-383 | the length is filled in and nothing else changes |
| `Netlink.Message.NestCancel` | tunnel/tools/wireguard-tools/src/netlink.h:385-388 | the message is what it was before the nest |
| `Netlink.ParseNested` | tunnel/tools/wireguard-tools/src/netlink.h:266-276 | the loop shows its callback the attributes of the payload in order, on any bytes |
| `Netlink.WalkEncode` | tunnel/tools/wireguard-tools/src/netlink.h:159-169 | parsing a sequence of attributes visits exactly what was put, in order |
| `WgWire.IpRoundTrip` | tunnel/tools/wireguard-tools/src/ipc-linux.h:278-302 | an allowed IP is read back from its attributes |
| `WgWire.PartRoundTrip` | tunnel/tools/wireguard-tools/src/ipc-linux.h:328-381 | one appearance of a peer is read back: key, flags, scalars when it is the first, allowed IPs |
| `WgWire.PartsRoundTrip` | tunnel/tools/wireguard-tools/src/ipc-linux.h:383-405 | the peers of one message are read back |
| `WgWire.MessageRoundTrip` | tunnel/tools/wireguard-tools/src/ipc-linux.h:407-449 | a message is read back, by the kernel's reading and by this parser's |
| `SetDevice.PutAllowedIp` | tunnel/tools/wireguard-tools/src/ipc-linux.h:217-234 | the nest is there whole or not at all |
| `SetDevice.PutAllowedIps` | tunnel/tools/wireguard-tools/src/ipc-linux.h:213-237 | the allowed IPs from the cursor on as far as they fit, in order, in a closed nest |
| `SetDevice.PutPeer` | tunnel/tools/wireguard-tools/src/ipc-linux.h:180-241 | a peer whole, interrupted among its allowed IPs, or cancelled without a trace |
| `SetDevice.PutPeers` | tunnel/tools/wireguard-tools/src/ipc-linux.h:176-258 | the peers from the cursor on as far as they fit; the cursor advances |
| `SetDevice.PutHead` | tunnel/tools/wireguard-tools/src/ipc-linux.h:157-172 | the device attributes |
| `SetDevice.OneMessage` | tunnel/tools/wireguard-tools/src/ipc-linux.h:155-258 | the buffer holds the well-formed message for the parts that were placed, and the cursor moved on |
| `SetDevice.KernelSetDevice` | tunnel/tools/wireguard-tools/src/ipc-linux.h:142-276 | the loop ends; every message fits the buffer and is the encoding of its parts; the parts in order go through all peers and allowed IPs once, with scalars on each peer's first appearance only |
| `KernelFold.ContinuePeer` | tunnel/tools/wireguard-tools/src/uapi/linux/linux/wireguard.h:122-130 | a peer in two pieces does what it does in one |
| `KernelFold.FragmentsMeanWhole` | tunnel/tools/wireguard-tools/src/uapi/linux/linux/wireguard.h:72-130 | for any device and prior state, applying the messages in order equals applying the whole configuration once |
| `KernelFold.Configure` | tunnel/tools/wireguard-tools/src/ipc-linux.h:142-276 | the messages sent fit the buffer and mean the configuration, for every prior state |
| `Coalesce.SpliceIps` | tunnel/tools/wireguard-tools/src/ipc-linux.h:465-471 | the next entry's allowed IPs hang behind this one's, and the pointers say so |
| `Coalesce.Splice` | tunnel/tools/wireguard-tools/src/ipc-linux.h:465-474 | the whole linked list is the list without the next entry, all pointers included |
| `Coalesce.CoalescePeers` | tunnel/tools/wireguard-tools/src/ipc-linux.h:456-476 | it succeeds exactly when `Follows` says so; then the list is a valid linked list whose entries are the coalesced ones, and no last pointer is lost if every continuation has allowed IPs |
| `Coalesce.SucceedsIffNoGap` | tunnel/tools/wireguard-tools/src/ipc-linux.h:465-471 | the null pointer is followed exactly on lists with a gap |
| `Coalesce.CoalescedNeighbours` | tunnel/tools/wireguard-tools/src/ipc-linux.h:460-464 | no two neighbours with the same key are left |
| `Coalesce.CoalescedSnoc` | tunnel/tools/wireguard-tools/src/ipc-linux.h:456-476 | a further entry joins the last coalesced one of its key or stands alone |
| `DumpRoundTrip.CoalesceUndoesFragments` | tunnel/tools/wireguard-tools/src/uapi/linux/linux/wireguard.h:56-65 | parsing the messages of any fragmentation and coalescing gives back the peers with scalars and ordered allowed IPs, when neighbouring keys differ, without following the null pointer |
| `DumpRoundTrip.NothingRefused` | tunnel/tools/wireguard-tools/src/ipc-linux.h:320-325 | in every message written for a device with proper prefix lengths, every peer has its key and every allowed IP a length that suits its family, so the parser's two error returns are not taken |
| `ReadDevice.AddIp` | tunnel/tools/wireguard-tools/src/ipc-linux.h:304-318 | a new allowed IP hangs behind the last one of the last peer, and the whole linked list has it and is else unchanged |
| `ReadDevice.AddPeer` | tunnel/tools/wireguard-tools/src/ipc-linux.h:383-398 | a new peer hangs behind the last one, and the whole linked list has it and is else unchanged |
| `ReadDevice.ReadDump` | tunnel/tools/wireguard-tools/src/ipc-linux.h:451-454 | reading any messages in order builds a valid linked list whose entries are those of the messages |
| `ReadDevice.WriteAndRead` | tunnel/tools/wireguard-tools/src/ipc-linux.h:478-513 | from bytes to pointers: whatever `kernel_set_device` writes, read into lists and coalesced in place, is a valid linked list of the device's peers in order with their scalars and ordered allowed IPs, when neighbouring keys differ, and walking it finds them |
| `ReadDevice.Walk` | tunnel/tools/wireguard-tools/src/containers.h:97-98 | following the pointers of a valid list finds exactly its entries |
| `SyncConf.PubkeyCmpOrder` | tunnel/tools/wireguard-tools/src/setconf.c:21-28 | a total order in which only equal elements compare equal |
| `SyncConf.StaleCount` | tunnel/tools/wireguard-tools/src/setconf.c:77-95 | in a sorted array the scan picks all of a key's runtime entries, or all but one if the file has the key |
| `SyncConf.CollectKeys` | tunnel/tools/wireguard-tools/src/setconf.c:65-74 | the file's keys and then the runtime's |
| `SyncConf.PrependStale` | tunnel/tools/wireguard-tools/src/setconf.c:77-95 | removals in front of the unchanged file peers, one for each stale key |
| `SyncConf.SyncConf` | tunnel/tools/wireguard-tools/src/setconf.c:30-99 | the flags and peers in each of its exits; each key is removed as often as the runtime has it in excess of the file |
| `SyncConf.KeepsIffDistinct` | tunnel/tools/wireguard-tools/src/setconf.c:77-95 | no kept peer is removed if and only if the runtime has none of the file's keys twice; a key not in the file is removed exactly if the runtime has it |
| `SyncConf.SyncLands` | tunnel/tools/wireguard-tools/src/setconf.c:30-99 | the device ends with exactly the file's keys, in all three successful exits |
| `SyncConf.SyncUpdates` | tunnel/tools/wireguard-tools/src/setconf.c:53-53 | a peer in both is updated in place, not recreated |
| `SyncConf.SyncDevice` | tunnel/tools/wireguard-tools/src/setconf.c:135-148 | `wg syncconf` leaves any device whose keys were read with exactly the keys of the file |
| `SyncConf.SyncKernel` | tunnel/tools/wireguard-tools/src/setconf.c:138-146 | the bounded messages written for the synced device, applied one after the other, leave any device whose keys were read with exactly the keys of the file |
| `Characters.CharacterClasses` | tunnel/tools/wireguard-tools/contrib/highlighter/highlighter.c:18-31 | setting bit 5 recognizes exactly the letters of both cases |
| `IpText.IsValidIpv4` | tunnel/tools/wireguard-tools/contrib/highlighter/highlighter.c:124-140 | accepts exactly four decimal bytes without leading zeros between dots, whatever follows the span |
| `IpText.IsValidIpv6` | tunnel/tools/wireguard-tools/contrib/highlighter/highlighter.c:142-178 | accepts exactly the addresses of section 2.2 of RFC 4291, and what a colon behind the span cuts off |
| `IpText.CutOffIsNoAddress` | tunnel/tools/wireguard-tools/contrib/highlighter/highlighter.c:166-175 | `1:2` in front of a colon is accepted and is no address |
| `HighlightValues.IsValidUint` | tunnel/tools/wireguard-tools/contrib/highlighter/highlighter.c:180-205 | accepts exactly one to ten digits in range, or hexadecimal ones after `0x` |
| `HighlightValues.IsValidHostname` | tunnel/tools/wireguard-tools/contrib/highlighter/highlighter.c:94-122 | 1 to 63 letters, digits, dashes and dots, neither dash nor dot at the ends, and not only digits and dots |
| `HighlightValues.IsValidScope` | tunnel/tools/wireguard-tools/contrib/highlighter/highlighter.c:259-270 | 1 to 64 of the allowed characters |
| `HighlightValues.IsValidBracketed` | tunnel/tools/wireguard-tools/contrib/highlighter/highlighter.c:278-305 | the loop over brackets and scope accepts exactly the endpoints that start with a bracket |
| `HighlightValues.IsValidEndpoint` | tunnel/tools/wireguard-tools/contrib/highlighter/highlighter.c:272-313 | accepts exactly a host, a colon and a port, where a host is an IPv4 address, a host name, or an IPv6 address in brackets with or without a scope |
| `HighlightValues.LastColon` | tunnel/tools/wireguard-tools/contrib/highlighter/highlighter.c:555-561 | no colon comes after the one that separates the port |
| `HighlightValues.IsValidNetwork` | tunnel/tools/wireguard-tools/contrib/highlighter/highlighter.c:315-338 | accepts exactly an address, or one with a prefix length of at most 32 or 128 |
| `Highlighter.SpanArray.Append` | tunnel/tools/wireguard-tools/contrib/highlighter/highlighter.c:425-443 | a non-empty span is appended, an empty one is not |
| `Highlighter.HighlightNetwork` | tunnel/tools/wireguard-tools/contrib/highlighter/highlighter.c:458-477 | a valid network becomes an address, or an address, a slash and a prefix length, adjacent and in order |
| `Highlighter.HighlightMultivalueValue` | tunnel/tools/wireguard-tools/contrib/highlighter/highlighter.c:445-480 | the spans of one value are those of the reference: an address, or host, slash and length, or one error exactly when the value is invalid for its field |
| `Highlighter.FinishPiece` | tunnel/tools/wireguard-tools/contrib/highlighter/highlighter.c:488-493 | at a comma, the trimmed piece before it and the comma itself become spans |
| `Highlighter.FinishList` | tunnel/tools/wireguard-tools/contrib/highlighter/highlighter.c:503-507 | the last piece completes the spans of the whole list; if it is empty, the last comma turns into an error |
| `Highlighter.HighlightMultivalue` | tunnel/tools/wireguard-tools/contrib/highlighter/highlighter.c:482-508 | the in-place scan with its running length gives the spans of cutting the list at its commas and trimming each piece; an empty last piece makes the comma before it an error |
| `Highlighter.HighlightKey` | tunnel/tools/wireguard-tools/contrib/highlighter/highlighter.c:513-521 | a key has its own kind exactly when it is the base64 text of 32 bytes |
| `Highlighter.SimpleKind` | tunnel/tools/wireguard-tools/contrib/highlighter/highlighter.c:522-547 | every other single value has the kind of its field exactly when it is valid for it |
| `Highlighter.EndpointParts` | tunnel/tools/wireguard-tools/contrib/highlighter/highlighter.c:548-563 | the split at the last colon yields the host and the port that were validated, both non-empty |
| `Highlighter.HighlightEndpoint` | tunnel/tools/wireguard-tools/contrib/highlighter/highlighter.c:548-563 | an endpoint becomes its host, the last colon and its port, or one error |
| `Highlighter.HighlightValue` | tunnel/tools/wireguard-tools/contrib/highlighter/highlighter.c:510-572 | the spans are exactly those of the field's kind; a single value ends in an error exactly when it is invalid for its field |
| `Highlighter.FinishValue` | tunnel/tools/wireguard-tools/contrib/highlighter/highlighter.c:588-595 | an equals sign with nothing behind it is an error, otherwise a delimiter before the value's spans |
| `Highlighter.FinishKey` | tunnel/tools/wireguard-tools/contrib/highlighter/highlighter.c:621-631 | the key up to the equals sign is a field exactly when it belongs to the section at hand, and starts the value |
| `Highlighter.FinishedLine` | tunnel/tools/wireguard-tools/contrib/highlighter/highlighter.c:584-602 | from any state, what was appended so far and what the end of the line appends are together the spans of the line |
| `Highlighter.ScanAdvances` | tunnel/tools/wireguard-tools/contrib/highlighter/highlighter.c:614-636 | the running start and lengths are what searching and trimming the line so far would find, after every byte |
| `Highlighter.FinishLine` | tunnel/tools/wireguard-tools/contrib/highlighter/highlighter.c:584-602 | the pending part of the line becomes exactly its spans, everything that is not blank is in one, and a section header sets the section |
| `Highlighter.AdvanceOk` | tunnel/tools/wireguard-tools/contrib/highlighter/highlighter.c:614-636 | every byte keeps the blanks and bounds of the state machine, in every state |
| `Highlighter.HighlightLines` | tunnel/tools/wireguard-tools/contrib/highlighter/highlighter.c:583-637 | the byte loop over the whole text gives the spans of its lines in order, carrying the section from line to line |
| `Highlighter.HighlightConfig` | tunnel/tools/wireguard-tools/contrib/highlighter/highlighter.c:574-641 | for every text the spans are exactly those of reading it line by line (comment, header, key, equals sign and value each found by search); they are non-empty, in bounds, ascending and disjoint, with only blanks between and around them, each with the meaning of its kind, and the end marker is last |
| `Highlighter.Print` | tunnel/tools/wireguard-tools/contrib/highlighter/highlight.c:66-79 | the lengths never go negative and the bytes written are the input, each once, also when the input has zero bytes |
| `KeyText.DecodeEncode` | tunnel/tools/wireguard-tools/src/encoding.c:24-72 | every 32-byte key is read back from its base64 text, which is an accepted one |
| `KeyText.EncodeDecode` | tunnel/tools/wireguard-tools/src/encoding.c:24-72 | every accepted text is the base64 text of the key it is read as |
| `KeyCodecs.EncodeCharIsSymbol` | tunnel/tools/wireguard-tools/src/encoding.c:15-20 | the masks compute the base64 alphabet, in C and in Java |
| `KeyCodecs.DecodeCharC` | tunnel/tools/wireguard-tools/src/encoding.c:39-46 | the masks invert the alphabet and give -1 elsewhere, with signed and unsigned char |
| `KeyCodecs.DecodeCharJava` | tunnel/src/main/java/com/wireguard/crypto/Key.java:45-58 | exactly which of the 65536 characters Java takes for a base64 character, and for which value |
| `KeyCodecs.PassesWhat` | tunnel/src/main/java/com/wireguard/crypto/Key.java:45-58 | below 256 exactly the alphabet passes, each character for itself; above, only a character whose low byte is in the alphabet, and for no more than that byte's value |
| `KeyCodecs.StrayCharacter` | tunnel/src/main/java/com/wireguard/crypto/Key.java:45-58 | no character with an odd high byte passes; U+022B passes for `A` |
| `KeyCodecs.DecodeCodes` | tunnel/tools/wireguard-tools/src/encoding.c:59-69 | the accumulated error is zero exactly for key texts, and then the bytes are the key |
| `KeyCodecs.KeyFromBase64` | tunnel/tools/wireguard-tools/src/encoding.c:50-72 | accepts exactly the key texts and reads the key |
| `KeyCodecs.FromBase64` | tunnel/src/main/java/com/wireguard/crypto/Key.java:92-120 | accepts exactly 44 characters that end in `=`, of which the others pass and the last of these has its two low bits clear, and reads the key of the text they pass for |
| `KeyCodecs.JavaReads` | tunnel/src/main/java/com/wireguard/crypto/Key.java:92-120 | on characters below 256 that is what the C code accepts and reads |
| `KeyCodecs.DiffersIffStray` | tunnel/src/main/java/com/wireguard/crypto/Key.java:92-120 | for every string, `fromBase64` differs from RFC 4648 if and only if it accepts the string and some character is 256 or more; then the string is no base64 at all |
| `KeyCodecs.StrayKey` | tunnel/src/main/java/com/wireguard/crypto/Key.java:92-120 | 43 times U+022B and `=` is read as the key of zeros |
| `KeyCodecs.EncodeBase64` | tunnel/tools/wireguard-tools/src/encoding.c:11-22 | the four characters of three bytes |
| `KeyCodecs.KeyToBase64` | tunnel/src/main/java/com/wireguard/crypto/Key.java:240-253 | the base64 text of the key, in C and in Java |
| `KeyCodecs.IsValidKey` | tunnel/tools/wireguard-tools/contrib/highlighter/highlighter.c:60-92 | the highlighter accepts what the decoders accept |
| `HexCodecs.DecodeEncodeHex` | tunnel/tools/wireguard-tools/src/encoding.c:74-114 | every key is read back from its hexadecimal text |
| `HexCodecs.EncodeDecodeHex` | tunnel/tools/wireguard-tools/src/encoding.c:74-114 | an accepted text comes back in lower case |
| `HexCodecs.KeyToHex` | tunnel/tools/wireguard-tools/src/encoding.c:74-83 | the hexadecimal text of the key, in C and in Java |
| `HexCodecs.NibbleDecodes` | tunnel/tools/wireguard-tools/src/encoding.c:94-100 | the masks recognize exactly the digits of both cases and give their value |
| `HexCodecs.NibbleDecodesJava` | tunnel/src/main/java/com/wireguard/crypto/Key.java:157-163 | exactly which of the 65536 characters Java takes for a digit, and for which value: below 256 the digits, from 256 on all but U+0130 to U+0139 |
| `HexCodecs.KeyFromHex` | tunnel/tools/wireguard-tools/src/encoding.c:85-114 | accepts exactly 64 hexadecimal digits and reads the key |
| `HexCodecs.FromHexString` | tunnel/src/main/java/com/wireguard/crypto/Key.java:142-177 | accepts exactly 64 characters that pass, and reads the key they pass for |
| `HexCodecs.JavaReadsHex` | tunnel/src/main/java/com/wireguard/crypto/Key.java:142-177 | on characters below 256 that is what the C code accepts and reads |
| `HexCodecs.HexDiffersIffStray` | tunnel/src/main/java/com/wireguard/crypto/Key.java:142-177 | for every string, `fromHex` differs from the table if and only if it accepts the string and some character is 256 or more |
| `HexCodecs.StrayHexKey` | tunnel/src/main/java/com/wireguard/crypto/Key.java:142-177 | 64 characters of 256 or more are read as a key unless one of them is U+0130 to U+0139 |
| `ElfCleaner.LastEntry` | tunnel/tools/elf-cleaner/elf-cleaner.cpp:137-144 | nothing but null entries after it |
| `ElfCleaner.CleanTwice` | tunnel/tools/elf-cleaner/elf-cleaner.cpp:148-187 | a cleaned entry is not removable and cleaning it again changes nothing |
| `ElfCleaner.CleanSection` | tunnel/tools/elf-cleaner/elf-cleaner.cpp:133-188 | the loop ends; the section holds exactly the cleaned entries in some order; no removable tag is left; entries before the terminator stay before it; a clean section is untouched |
| `ElfCleaner.CleanSectionTwice` | tunnel/tools/elf-cleaner/elf-cleaner.cpp:133-188 | cleaning again changes nothing |
| `SetUsers.Exclude` | tunnel/tools/wireguard-tools/src/wg-quick/android.c:801-820 | for every sorted list of uids, with duplicates or not, the ranges ascend, do not touch, and are exactly the complement up to the end |
| `SetUsers.Include` | tunnel/tools/wireguard-tools/src/wg-quick/android.c:821-831 | each uid once, in order |
| `SetUsers.SetUsers` | tunnel/tools/wireguard-tools/src/wg-quick/android.c:787-835 | the commands together carry those ranges in order, each between 1 and 18 of them; both lists at once are refused |
| `SetUsers.ComplementIffNotLast` | tunnel/tools/wireguard-tools/src/wg-quick/android.c:817-820 | the ranges are exactly 0..99999 without the list if and only if the largest excluded uid is not 99998; only 99999 is ever missing |
| `GoBackend.GoHandles.TurnOn` | tunnel/tools/libwg-go/api-android.go:133-146 | the lowest free handle is taken, or -1 and nothing changes |
| `GoBackend.GoHandles.TurnOff` | tunnel/tools/libwg-go/api-android.go:150-155 | that handle is gone and no other |
| `GoBackend.GoBackend.BringUpInternal` | tunnel/src/main/java/com/wireguard/android/backend/GoBackend.java:247-372 | all set or all unset, whatever fails; the service is owned from the point where it is at hand, also when the addresses, the interface or the Go code fail after that |
| `GoBackend.GoBackend.TearDownInternal` | tunnel/src/main/java/com/wireguard/android/backend/GoBackend.java:373-386 | all unset and the Go table empty |
| `GoBackend.GoBackend.SwitchTo` | tunnel/src/main/java/com/wireguard/android/backend/GoBackend.java:225-236 | the old tunnel goes first and is raised again when the new one does not come up |
| `GoBackend.GoBackend.SetState` | tunnel/src/main/java/com/wireguard/android/backend/GoBackend.java:218-241 | fields and Go table follow the abstract machine, in every branch and with every failure; a failed switch throws and restores as below |
| `GoBackend.GoBackend.OnDestroy` | tunnel/src/main/java/com/wireguard/android/backend/GoBackend.java:416-433 | nothing runs and the table is empty |
| `GoBackend.FailedSwitchRestores` | tunnel/src/main/java/com/wireguard/android/backend/GoBackend.java:230-236 | for every request that switches and fails, whether the old service stops quietly or not: it throws, and the old tunnel with its configuration is back if and only if it stopped quietly and came up again |
| `GoBackend.AnswerIsTrue` | tunnel/src/main/java/com/wireguard/android/backend/GoBackend.java:218-241 | the answer is the state of the tunnel, and an exception never leaves a third tunnel running |
| `GoBackend.Run` | tunnel/src/main/java/com/wireguard/android/backend/GoBackend.java:218-241 | over every run of calls and failures, tunnel, configuration and handle are all set or all unset, and the Go table holds exactly that device |
| `GoBackend.RunningWasAskedFor` | tunnel/src/main/java/com/wireguard/android/backend/GoBackend.java:218-241 | what runs was asked for by a call after the last destruction of the service |
| `ConfigText.ReadUnlines` | tunnel/src/main/java/com/wireguard/config/Config.java:72-72 | the lines of a text put together from lines are those lines |
| `ConfigText.ParseAttributeLine` | tunnel/src/main/java/com/wireguard/config/Attribute.java:42-47 | name, blank, equals sign, blank and value are read as name and value |
| `ConfigText.Join` | tunnel/src/main/java/com/wireguard/config/Attribute.java:28-40 | the elements with commas and blanks between them |
| `ConfigText.SplitJoin` | tunnel/src/main/java/com/wireguard/config/Attribute.java:49-51 | splitting undoes joining, with or without a blank after the comma |
| `WgConfig.NameRoundTrip` | tunnel/src/main/java/com/wireguard/config/Interface.java:76-101 | every printed attribute name is recognized as itself and as no other |
| `WgConfig.ParseInterface` | tunnel/src/main/java/com/wireguard/config/Interface.java:69-104 | the loop over the builder is the fold of its lines |
| `WgConfig.ParsePeer` | tunnel/src/main/java/com/wireguard/config/Peer.java:55-84 | the loop over the builder is the fold of its lines |
| `WgConfig.ParseConfig` | tunnel/src/main/java/com/wireguard/config/Config.java:63-113 | the loop with its section flags is the fold of the lines, for texts that parse and texts that do not |
| `ConfigRoundTrip.InterfaceRoundTrip` | tunnel/src/main/java/com/wireguard/config/Interface.java:232-249 | an interface is read back from its lines, but for search domains without a server |
| `ConfigRoundTrip.PeerRoundTrip` | tunnel/src/main/java/com/wireguard/config/Peer.java:176-185 | a peer is read back from its lines |
| `ConfigRoundTrip.PrintParse` | tunnel/src/main/java/com/wireguard/config/Config.java:163-169 | every built configuration is read back from its text, peers and lists in order, but for those search domains |
| `ConfigRoundTrip.RoundTripIffServers` | tunnel/src/main/java/com/wireguard/config/Interface.java:236-240 | the round trip is exact if and only if there is a DNS server or no search domain |
| `ConfigRoundTrip.ParsedInterface` | tunnel/src/main/java/com/wireguard/config/Interface.java:69-104 | whatever the lines, an interface that parses has lists without duplicates, port and MTU in range and not zero, and not both application lists |
| `ConfigRoundTrip.ParsedPeer` | tunnel/src/main/java/com/wireguard/config/Peer.java:55-84 | whatever the lines, a peer that parses has allowed IPs without duplicates and a keepalive in range and not zero |
| `SplitTunnel.ApplySplitTunneling` | app/src/main/java/uk/co/aiovpn/android/repo/VpnRepository.kt:83-129 | the text without its application lines, with the new one before the first `[Peer]` or at the end; unchanged when the mode is off |
| `SplitTunnelLines.SeenIff` | app/src/main/java/uk/co/aiovpn/android/repo/VpnRepository.kt:94-98 | on every line the parser can read, the rewrite sees exactly the application lines with one blank before the equals sign and nothing in front that only Java trims; it drops no other line |
| `SplitTunnelLines.AgreesIff` | app/src/main/java/uk/co/aiovpn/android/repo/VpnRepository.kt:94-102 | on every line the parser can read, rewrite and parser agree if and only if an application line has that form and a `[Peer]` header no comment and nothing around it that only Java trims |
| `SplitTunnelReading.FoldApps` | tunnel/src/main/java/com/wireguard/config/Interface.java:69-104 | the interface of any lines is what the other lines make of it, with the applications of the application lines in order |
| `SplitTunnelReading.ParsedIsReadable` | tunnel/src/main/java/com/wireguard/config/Config.java:63-113 | every line of a text that parses is blank, one of the two headers or an attribute, once its comment is gone |
| `SplitTunnelReading.ReadThinned` | tunnel/src/main/java/com/wireguard/config/Config.java:63-113 | without the dropped lines the parser's variables are the same but for the interface's lines, which have the same others and the applications of the lines that stay |
| `SplitTunnelOutcome.SpoiledHalves` | tunnel/src/main/java/com/wireguard/config/Config.java:63-113 | an application line where the last header is not `[Interface]` makes any text unreadable |
| `SplitTunnelOutcome.RewriteOutcome` | app/src/main/java/uk/co/aiovpn/android/repo/VpnRepository.kt:83-129 | for every text that parses: the rewritten text parses if and only if nothing is inserted, or the last header before the insertion is `[Interface]` and not both lists get applications; then it is the same configuration but for the lists, which hold the applications of the unseen lines and the chosen ones, in order and without duplicates |
| `SplitTunnelText.ExactIff` | app/src/main/java/uk/co/aiovpn/android/repo/VpnRepository.kt:83-129 | for every text that parses: the result has exactly the chosen applications if and only if nothing is inserted or the insertion is in an interface, and the unseen application lines list chosen applications of the chosen list only |
| `SplitTunnelText.AgreeingText` | app/src/main/java/uk/co/aiovpn/android/repo/VpnRepository.kt:83-129 | on a text whose lines both see alike, the result is the same configuration with the chosen applications in order, exactly when an `[Interface]` comes before the first `[Peer]` or nothing is inserted; otherwise it does not parse |
| `SplitTunnelText.ReadIsShorn` | app/src/main/java/uk/co/aiovpn/android/repo/VpnRepository.kt:92 | Kotlin's lines are the lines the parser reads, but for an empty one behind the last line break |
| `SplitTunnelText.ReadJoined` | app/src/main/java/uk/co/aiovpn/android/repo/VpnRepository.kt:128 | joined with line breaks, lines are read back, but for an empty one at the end |
| `SplitTunnelText.TextToText` | app/src/main/java/uk/co/aiovpn/android/repo/VpnRepository.kt:83-129 | the outcome of `RewriteOutcome` from the text that goes in to the text that comes out, with the different ways of the two languages to cut it into lines, for every text that parses |
| `SplitTunnelText.PrintedLineAgrees` | app/src/main/java/uk/co/aiovpn/android/repo/VpnRepository.kt:94-102 | the rewrite and the parser agree on every printed attribute line |
| `SplitTunnelText.RewriteOfPrinted` | app/src/main/java/uk/co/aiovpn/android/repo/VpnRepository.kt:83-129 | the rewrite of any printed configuration parses to it with the chosen applications |
| `SplitTunnelExamples.TightBreaks` | app/src/main/java/uk/co/aiovpn/android/repo/VpnRepository.kt:94-98 | a text with `IncludedApplications=a` parses; choosing an excluded application makes it unreadable, choosing an included one keeps `a` beside it |
| `SplitTunnelExamples.CommentedBreaks` | app/src/main/java/uk/co/aiovpn/android/repo/VpnRepository.kt:100-102 | a text with a comment behind `[Peer]` parses and has an `[Interface]` first; the new line lands in the peer and makes it unreadable |

## Left out

- JavaCurve.Curve25519.Eval: requires a point below 2^256 - 19; above that two trial subtractions leave the point unreduced, as `JavaLimbs.QuickReduceTwice` states.
- JavaCurve.Curve25519.LoadPoint: the same bound.
- PublicKeyAgreement.SharedSecret: requires the peer's top bit to be clear; with it set `eval` uses another point than RFC 7748, as `Ladder.UnmaskedU` states.
- SetDevice.KernelSetDevice: requires a buffer of 280 to 8192 bytes; with less room than one peer's fixed attributes and one allowed IP the loop need not advance. The source has one page, or 8192 bytes if that is less.
- ElfCleaner.CleanSection: requires at least one entry; with none the source's unsigned index starts at its largest value. The dry run is not modelled.
- ElfCleaner.LastEntry and ElfCleaner.CleanSectionTwice: the same.
- SetUsers.Exclude: requires uids below 2^32 - 1, so that the next start is a number.
- ConfigRoundTrip.PrintParse: requires list elements without commas, comments, line breaks or outer blanks, and leaf parsers that read their own printed form.
- SplitTunnelOutcome.RewriteOutcome: requires names of applications without commas, comments, line breaks or outer blanks, as package names are.
- GoBackend.GoBackend.BringUpInternal: an exception from closing the descriptor after the Go code took it over is not among the failures.
- WgWire.PartsRoundTrip and WgWire.MessageRoundTrip: without the parser's error returns, as the next line says.
- DumpRoundTrip.CoalesceUndoesFragments: the parser's error returns for a missing public key or a prefix length out of range are not part of the parser; `DumpRoundTrip.NothingRefused` says that nothing sent here takes them when the prefix lengths are in range. The attributes that only a dump has (handshake time, byte counts) are not read.
- `device->last_peer` after `coalesce_peers`: it is not updated by the source and not part of the list model.
- Letter case is folded in ASCII; Java's and Kotlin's folding of other letters onto ASCII ones is not modelled.
- Sending, receiving and acknowledging netlink messages, sockets, mmap and the section headers around the dynamic section.
- `curve25519-hacl64.h`, `curve25519-fiat32.h` and `wireguard.js`: the same theorem over generated or floating-point code.
- `config.c`, `showconf.c`, `show.c` and `ipc-uapi.h`: mostly address parsing and printing of the C library.
- Memory zeroing, constant time, allocation failure, logging and error messages.
- The statistics parser, DNS retries and the VPN builder calls of `GoBackend`; the user interface, HTTP API, updater and stores.
