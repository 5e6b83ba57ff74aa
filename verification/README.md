# wgpilot: a verified model

wgpilot keeps a database of WireGuard networks and peers and pushes it into the Linux
kernel. This project models the parts of it in which a mistake is hard to see, and proves
what they are for:

- **Reconciling.** A kernel of links, peers and owned blocks, in which giving a block to one
  peer takes it from every other and in which any call may fail part-way. From any kernel
  state one pass makes the kernel agree with the database, a second pass asks for nothing,
  and no failure costs an enabled peer. (`Kernel`, `PeerSync`, `PeerExact`, `Reconcile`)
- **Addressing.** IP arithmetic byte by byte for IPv4 and IPv6, the allocator, subnet overlap,
  and the invariant they give together over every run of network and peer creates and
  deletes, in one step or interleaved. (`IpBytes`, `Blocks`, `IpPool`, `IpAlloc`, `Inventory`,
  `InventoryRuns`, `ServerAddr`, `Interleaving`, `Sample`)
- **From rows to kernel.** Which runs of the handlers lead to a database that the reconciler
  can put in place, what the handlers leave behind when a step fails, and that without a
  kernel fault they keep the kernel in step by themselves. (`UsedHosts`, `Deployment`,
  `SharedSites`, `Provision`, `Handlers`, `Lockstep`)
- **wg-quick files.** The generators and the parser, character by character: on every text the
  parser computes what the file means, said without a scanner, and parsing a generated file
  gives back what it was made from. (`WgQuick`, `WgQuickSpec`, `WgQuickGen`)
- **Firewall rules.** The rule map with rollback around an applier that may fail, and the
  accept relation, ports and masquerades read off the fields of the calls, and off the printed
  dump. (`NftRules`, `NftHistory`, `NftManager`, `NftDump`, `NftText`, `NftLines`)
- **Login limiting.** Slices compacted in place and a clean-up at any moment, refining a
  limiter that remembers everything. (`RateLimit`)
- **Keys at rest.** A length test decides whether to encrypt; every run over storable values
  keeps exactly one layer. (`Base64`, `KeyStore`, `KeyTables`)

`Text`, `Cidr`, `Arith`, `Collections` and `Wrappers` serve all of them. A piece of code that
works by updating state is a class or a method with loops, proved against a function of its
inputs or of its old state; what the program promises is proved about that function.
`dafny verify dfyconfig.toml` checks everything.

Where the code does not keep a property on all inputs, the model follows the code, and a
lemma says exactly when the property holds:

- `allowedIPsMatch` checks one inclusion and the lengths. That is set equality against every
  kernel list exactly when the database list repeats no block (`MatchExactWhenRepeatFree`,
  `RepeatLooksEqual`).
- Given distinct keys, the reconciler brings every device to the database state exactly when
  the list of every enabled peer parses and repeats no block, and no two enabled peers of a
  network share one (`ConvergesExactly`). The rows the handlers store are like that exactly
  when site networks fit at every create (`DeployableExactly`). Nothing stops two gateways from
  being created with the same site network (`SharedSitesRun`, `SharedSitesNeverSettle`).
- Two creates of one network that are under way at once get the same tunnel address exactly
  when they pick the same (`CommitsClashExactly`, `ClashingRun`). Over every interleaving,
  tunnels stay distinct exactly when no create picks an address that another has picked and
  not yet stored (`TunnelsDistinctExactly`).
- On 0.0.0.0/0, which a configuration import can store as a subnet, the search for an address
  goes on for ever exactly when every address but the broadcast address is used, and it can
  grant the network address once that was released (`EndsZeroExactly`,
  `ReservedSafeExactly`).
- On IPv6 the search stops short of the addresses that have a 4-byte form (`Found6`).
- A create that fails leaves the firewall rules as they were exactly when it had added none
  that were new (`RulesStayExactly`), and the device as it was exactly when the key was new and
  no other peer held one of its blocks (`UndoneExactly`).
- A create followed by a delete gives the firewall rules back exactly when none of the keys that
  the delete removes was in use before (`CreateThenDelete`).
- A failed final flush of the firewall leaves the kernel without a table while memory keeps
  its rules (`FailedFlushDisconnects`, `InSyncExactly`).
- A bridge key can stand for two pairs of interfaces when a name holds a colon
  (`ColonNamesCollide`, `KeyUniqueExactly`).
- One layer of encryption is kept exactly for values that are not four bytes long and do not
  look encrypted themselves (`LayeringExactly`); WireGuard keys are such values. A four-byte
  value is not recognised once encrypted (`RecognisedExactly`, `ReadBackExactly`); forty bytes
  in base64 lose their layer at the first edit (`BareAfterEdit`, `FortyBytesNotStorable`).
- A generated wg-quick file is unreadable exactly when a line does not fit the scanner's
  64 KiB buffer; a keepalive of zero or less is not printed and comes back as zero
  (`ServerRoundTrip`, `ClientRoundTrip`, `LongFilesExist`).

One comment in the code disagrees with it: encryption.go speaks of at least 60 bytes for a
sealed key, counting 32 bytes of plaintext. The plaintext sealed is the 44-character text, so
a sealed key has 72 bytes. The conclusion drawn from the length is the same.

## Model

| member | source | states |
|---|---|---|
| `Text.SplitAndTrim` | internal/wg/manager.go:484-506 | the one-pass index loop returns exactly the comma-separated pieces, stripped of blanks and tabs, blank pieces dropped |
| `Text.TrimPart` | internal/wg/manager.go:489-501 | the two inner loops keep what lies between the first and the last character that is neither blank nor tab |
| `Text.DecimalRoundTrip` | internal/wg/manager.go:85 | the printed decimal reads back as the same number and has no leading zero |
| `Text.NumberRoundTrip` | internal/wg/manager.go:72-85 | the decimal form of a number is the only spelling of it in digits without a leading zero |
| `Text.SplitExactly` | internal/server/routes_peers.go:103-112 | splitting gives the one list of pieces free of the separator that joins to the text |
| `Text.JoinSplits` | internal/nft/rules.go:151-186 | text joined by a separator that no piece holds splits into those pieces |
| `Cidr.IPv4RoundTrip` | internal/wg/ip_alloc.go:38-46 | reading the dotted text of any address gives the address back, so the text kept in the used map identifies it |
| `Cidr.IPv4Exactly` | internal/wg/manager.go:72-85 | text is read as an address if and only if it is the dotted form printed for it |
| `Cidr.Cidr4RoundTrip` | internal/wg/manager.go:83-85 | reading address/length text gives back both, host bits included |
| `Cidr.Cidr4Exactly` | internal/wg/manager.go:72-85 | text is read as address and length if and only if it is the dotted form, a slash and digits for a length up to 32 |
| `Cidr.NetRoundTrip` | internal/wg/manager.go:474-478 | parsing the text of a masked block gives that block: every IPv4 block, and every IPv6 block whose text the library itself reads back as that block |
| `Cidr.ParsedBlock` | internal/wg/manager.go:466-481 | text with host bits gives the block of the written length that holds the written address |
| `Cidr.NetTextInjective` | internal/wg/reconcile.go:295-304 | two blocks with the same text are the same block, so comparing texts compares blocks |
| `Cidr.ParseAllowedIPs` | internal/wg/manager.go:466-481 | the loop yields the masked block of every kept part in order, and fails when any part fails; the empty text is the empty list |
| `Cidr.FormatIPNets` | internal/wg/reconcile.go:310-319 | the accumulating loop prints the blocks separated by comma and blank, nothing for none |
| `Cidr.FormatRoundTrip` | internal/wg/reconcile.go:310-319 | parsing what is printed for a list of blocks with canonical text gives the same list in the same order |
| `Cidr.ReadPrintRead` | internal/wg/reconcile.go:310-319 | whatever text a list was read from, printing the blocks and reading them again gives the same list |
| `PeerSync.TextsOf` | internal/wg/reconcile.go:295-298 | a block is in the kernel list exactly when its text is in the set built from it |
| `PeerSync.AllowedIPsMatch` | internal/wg/reconcile.go:284-307 | true exactly when the column parses, lengths are equal and every database block is among the kernel's |
| `PeerSync.MatchIsEquality` | internal/wg/reconcile.go:284-307 | for lists without repeats that one-sided comparison is equality of the two block sets |
| `PeerSync.MatchExactWhenRepeatFree` | internal/wg/reconcile.go:290-304 | the comparison is set equality against every repeat-free kernel list if and only if the database list repeats no block |
| `PeerSync.RepeatLooksEqual` | internal/wg/reconcile.go:290-304 | X,X in the database is taken for X,Y in the kernel, for any two blocks |
| `PeerSync.PlanConverges` | internal/wg/reconcile.go:130-251 | from any device, the calls decided on the stale snapshot end with exactly the enabled peers and their blocks, despite each call taking blocks from other peers |
| `PeerExact.ConvergesExactly` | internal/wg/reconcile.go:130-251 | given distinct keys, the plan brings every device to the database state if and only if every enabled peer's list parses and repeats no block, and no two enabled peers share one |
| `PeerExact.SharedNeverAgrees` | internal/wg/reconcile.go:130-251 | on a device where each block has one owner, two enabled peers that share a block are never both satisfied |
| `PeerExact.UnparsedFails` | internal/wg/reconcile.go:266-270 | an enabled peer whose list does not parse never gets on an empty device |
| `PeerExact.RepeatFails` | internal/wg/reconcile.go:284-307 | a list that repeats a block leaves strange blocks on a device that holds its own blocks and as many others as it repeats |
| `PeerSync.PlanQuiet` | internal/wg/reconcile.go:153-250 | a device that already agrees with the database is asked for nothing |
| `PeerSync.PlanHarmless` | internal/wg/reconcile.go:153-250 | every call either removes a key no enabled database peer has or grants an enabled peer its own blocks |
| `PeerSync.PlanSafe` | internal/wg/reconcile.go:153-250 | whichever calls fail, no enabled peer disappears, and none loses a block the database grants it |
| `Kernel.PeerEffect` | internal/wg/device.go:89-125 | one peer entry, block by block: a removal takes the peer away and nothing else; an update-only entry for an unknown key does nothing; otherwise the listed blocks are the peer's alone, its other blocks stay unless replaced, and every other peer keeps the rest |
| `Kernel.Host.ConfigurePeers` | internal/wg/interfaces.go:75-84 | peer entries take effect in order under Remove, UpdateOnly and ReplaceAllowedIPs, a failing call up to some entry only; other links are untouched |
| `Kernel.Host.ConfigureDevice` | internal/wg/interfaces.go:67-72 | sets key and port of an existing link, or fails and changes nothing |
| `Kernel.Host.Devices` | internal/wg/interfaces.go:18-19 | lists every link once, with every peer once and its blocks without repeats, or fails |
| `Kernel.Host.Device` | internal/wg/interfaces.go:15-16 | describes one existing link, or fails |
| `Kernel.Host.CreateWireGuardLink` | internal/wg/interfaces.go:28-29 | adds an empty link under a new name, or fails and changes nothing |
| `Kernel.Host.RemoveLink` | internal/wg/interfaces.go:31-32 | removes exactly that link, or fails and changes nothing |
| `Kernel.Host.SetLink` | internal/wg/interfaces.go:34-38 | changes only whether the link is up |
| `Kernel.Host.AssignAddress` | internal/wg/interfaces.go:40-41 | adds one address to the link and changes nothing else |
| `Reconcile.Manager.ServerAddressOf` | internal/wg/manager.go:72-85 | a readable IPv4 subnet gives text that reads back as its masked base plus one, computed on the bytes, with the length of the subnet |
| `Reconcile.Manager.CreateInterface` | internal/wg/manager.go:49-141 | link, address, device settings and up in order: on success exactly one new link, with the fields of the row and as its only address the first usable address of the subnet; on failure no link stays unless the clean-up delete failed too |
| `Reconcile.NewLinkHoldsFirst` | internal/wg/manager.go:83-85 | every link set up for a readable IPv4 subnet holds one address, which reads back as the first usable address of that subnet |
| `Reconcile.Manager.BringUp` | internal/wg/manager.go:87-131 | address, device settings and up, touching no other link |
| `Reconcile.Manager.DeleteInterface` | internal/wg/manager.go:151-219 | success means the link is gone, by one removal of all its peers, down, delete, in that order; other links are untouched whatever fails |
| `Reconcile.Manager.DropPeersAndLink` | internal/wg/manager.go:177-214 | removal of the peers if there are any, down, delete, in that order, touching no other link |
| `Reconcile.Manager.Removals` | internal/wg/manager.go:169-176 | removal entries for exactly the peers of the device |
| `Reconcile.Manager.IssueOne` | internal/wg/reconcile.go:254-281 | one call per peer, issued to that interface alone, taking effect in full or not at all |
| `Reconcile.Manager.AddPeer` | internal/wg/manager.go:228-271 | AllowedIPs that do not parse fail before any call; success gives the peer exactly its blocks and takes them from every other peer of that device |
| `Reconcile.Manager.RemovePeer` | internal/wg/manager.go:274-308 | success removes that peer alone, on that device alone |
| `Reconcile.Manager.Decide` | internal/wg/reconcile.go:153-216 | at most one call per database peer, as the plan has it: remove, add, replace or nothing |
| `Reconcile.Manager.IndexPeers` | internal/wg/reconcile.go:132-137 | the map built from the snapshot, key to blocks |
| `Reconcile.Manager.SyncKnown` | internal/wg/reconcile.go:152-228 | issues the plan for the database peers in order and collects their keys |
| `Reconcile.Manager.DropOrphans` | internal/wg/reconcile.go:230-250 | then a removal for every snapshot peer with an unknown key |
| `Reconcile.Manager.SyncPeers` | internal/wg/reconcile.go:130-251 | exactly the plan's calls are issued to this interface, whichever of them take effect |
| `Reconcile.Manager.SyncNetwork` | internal/wg/reconcile.go:97-110 | afterwards the device agrees with the database if nothing failed; enabled peers survive in any case; nothing is issued if it agreed before |
| `Reconcile.Manager.EnsureInterface` | internal/wg/reconcile.go:77-95 | an existing interface is left alone; a missing one is created with the server address, port, key and up, or the network is skipped |
| `Reconcile.Manager.ReconcileNetwork` | internal/wg/reconcile.go:52-110 | one network's interface is put right or kept safe; every other interface is unchanged |
| `Reconcile.Manager.IndexDevices` | internal/wg/reconcile.go:44-47 | the map by name holds a faithful description of every link |
| `Reconcile.Manager.Reconcile` | internal/wg/reconcile.go:14-126 | with every call free to fail: unmanaged interfaces unchanged, every enabled network's interface keeps its address, port, key and state, no enabled peer is lost; with none failing: the kernel is what the database says, every missing interface is set up in full, and no changing call is issued if it was so before |
| `Reconcile.Manager.ReconcileTwice` | internal/wg/reconcile.go:14-126 | a second pass right after the first issues no link- or device-changing call |
| `Reconcile.InStepValid` | internal/wg/reconcile.go:14-126 | a settled pass leaves only properly masked blocks, which is what the next pass relies on |
| `IpBytes.NextIP` | internal/wg/ip_alloc.go:101-122 | plus one modulo 2^32 on IPv4 in either byte form, plus one modulo 2^(8n) on the carry path |
| `IpBytes.CarryLoop` | internal/wg/ip_alloc.go:114-121 | the byte loop that stops at the first byte not wrapping is addition with carry |
| `IpBytes.IncrementValue` | internal/wg/ip_alloc.go:114-121 | addition with carry adds one to the big-endian value, wrapping to zero |
| `IpBytes.MaskIPValue` | internal/wg/ip_alloc.go:94 | masking byte by byte, at any length, rounds the value down to a multiple of the block size |
| `IpBytes.ContainsIPValue` | internal/wg/ip_alloc.go:58 | for IPv4 in either byte form the bytewise containment test is containment of values |
| `IpBytes.LastFourOfMask` | internal/wg/ip_alloc.go:53-72 | the mask that applies to the 4-byte form of a 16-byte subnet is its last four bytes |
| `IpBytes.FirstUsableIP` | internal/wg/ip_alloc.go:93-98 | network address plus one, wrapping, for IPv4 and IPv6 subnets |
| `IpBytes.IsBroadcast` | internal/wg/ip_alloc.go:125-148 | the byte loop answers yes exactly for network + 2^(32-p) - 1 of an IPv4 subnet in either byte form, and no whenever the address or the subnet is IPv6 |
| `IpBytes.FilledValue` | internal/wg/ip_alloc.go:142-146 | or-ing the inverted mask into every byte, at any length, gives the last address of the block |
| `IpBytes.ExportedAddress` | internal/server/routes_networks.go:923-929 | on every accepted subnet the exporter's increment of the last byte never carries and gives, byte for byte, the first usable address that the interface is given |
| `ServerAddr.ServerNeverPicked` | internal/wg/ip_alloc.go:19-72 | no create is ever granted the address of its network's interface |
| `ServerAddr.ServerNeverHeld` | internal/wg/ip_alloc.go:19-72 | in no run does any peer hold the address of any network's interface |
| `Blocks.OverlapIsSharing` | internal/server/routes_networks.go:208-217 | the two-way base containment test holds exactly when the two blocks have an address in common |
| `Blocks.MaskedOverlap` | internal/server/routes_networks.go:208-217 | the overlap test on the masked bases holds if and only if the blocks as written share an address |
| `Blocks.MaskedTwice` | internal/server/routes_networks.go:208-211 | masking to a longer prefix first changes nothing, so blocks are nested or disjoint |
| `Blocks.AcceptedExactly` | internal/server/routes_networks.go:80-104 | the validator accepts a subnet if and only if it reads as an IPv4 CIDR from /16 to /30 whose address is in an RFC 1918 range |
| `Blocks.AcceptedIsPrivate` | internal/server/routes_networks.go:80-104 | every address of every accepted subnet lies in the ranges of section 3 of RFC 1918, although only the written address is tested |
| `Blocks.BlockFits` | internal/wg/ip_alloc.go:58-68 | a block ends inside the address space |
| `IpPool.NextFreeIsLeast` | internal/wg/ip_alloc.go:57-70 | the address found is the least unused one above the server below the broadcast address; none found means that all are used |
| `IpPool.LeavesBlock` | internal/wg/ip_alloc.go:58 | with a mask bit the walk leaves the block exactly at its end, also where addresses wrap past the top |
| `IpPool.Found4` | internal/wg/ip_alloc.go:57-70 | for IPv4 prefixes 1 to 32 the walk on bytes, in either byte form, finds the least unused address above the server other than broadcast, and nothing exactly when there is none |
| `IpPool.NeverOutside` | internal/wg/ip_alloc.go:58 | for 0.0.0.0/0 the loop guard never fails |
| `IpPool.EndsZeroExactly` | internal/wg/ip_alloc.go:58-68 | for 0.0.0.0/0 the walk ends if and only if some address other than broadcast is unused |
| `IpPool.FoundZero` | internal/wg/ip_alloc.go:58-68 | and then finds the least unused address from 2 up, or, having wrapped, the network or the server address if that was released |
| `IpPool.MappedRange` | internal/wg/ip_alloc.go:106-107 | the 16-byte addresses with a 4-byte form are exactly those from ::ffff:0:0 to ::ffff:ffff:ffff |
| `IpPool.Found6` | internal/wg/ip_alloc.go:57-70 | on IPv6 the walk finds the least unused address above the server in the block, no broadcast address left out, but stops where the next address has a 4-byte form |
| `IpPool.EndsExactly` | internal/wg/ip_alloc.go:53-71 | over all subnets, the search ends if and only if the subnet is IPv6, or has a mask bit, or has an unused address other than broadcast |
| `IpAlloc.IPAllocator.constructor` | internal/wg/ip_alloc.go:19-50 | for IPv4 and IPv6 subnets the base is masked, and network and server address are reserved besides those given |
| `IpAlloc.IPAllocator.Search` | internal/wg/ip_alloc.go:57-68 | whenever the walk ends, the loop stops at its first address that is outside or can be granted |
| `IpAlloc.IPAllocator.Allocate` | internal/wg/ip_alloc.go:53-71 | on every subnet on which it returns: grants the address the theorems on the walk name and marks it alone, or fails and marks nothing |
| `IpAlloc.IPAllocator.Release` | internal/wg/ip_alloc.go:74-78 | frees the text of any address, IPv4 or IPv6, and no other IPv4 address |
| `IpAlloc.LiveAddressesDistinct` | internal/wg/ip_alloc.go:53-78 | over any calls, on any prefix, live addresses are pairwise distinct |
| `IpAlloc.ReservedNeverGranted` | internal/wg/ip_alloc.go:53-78 | with a mask bit they are never the network, server or broadcast address, even if those were released |
| `IpAlloc.NetworkGrantedAtZero` | internal/wg/ip_alloc.go:53-78 | on 0.0.0.0/0 a released network address is granted |
| `IpAlloc.ReservedSafeExactly` | internal/wg/ip_alloc.go:53-78 | reserved addresses are safe over every run if and only if the prefix is not 0 |
| `IpAlloc.FreshGrants` | internal/wg/ip_alloc.go:53-71 | a fresh allocator grants the addresses after the server in order, and nothing more once its capacity is used up |
| `IpAlloc.CapacityIs` | internal/wg/ip_alloc.go:53-71 | that capacity is 2^(32-p) - 3 for prefixes up to 30 |
| `Inventory.NextInterfaceName` | internal/server/routes_networks.go:164-175 | "wg" and the least number whose name no network has, which is at most the number of networks |
| `Inventory.NextIndexIsLeast` | internal/server/routes_networks.go:169-174 | least unused index, and at most as far on as there are used names |
| `Inventory.IfaceNameInjective` | internal/server/routes_networks.go:170 | different numbers give different interface names |
| `Inventory.CheckSubnet` | internal/server/routes_networks.go:208-217 | refused if and only if some network with a readable subnet shares an address with the new one |
| `Inventory.CheckPort` | internal/server/routes_networks.go:220-227 | refused if and only if some network has the port |
| `Inventory.SitesExactly` | internal/server/routes_peers.go:99-112 | a site list is accepted if and only if it is empty or consists of comma-separated pieces that are CIDRs once trimmed |
| `Inventory.CheckSites` | internal/server/routes_peers.go:99-112 | the loop over the pieces decides exactly that |
| `Inventory.CollectUsed` | internal/server/routes_peers.go:207-217 | the nested loops collect every address written in the AllowedIPs of the network's peers, parts that do not parse skipped |
| `Inventory.UsedExactly` | internal/server/routes_peers.go:207-217 | a text is collected as used if and only if a piece of the list of a peer of the network reads as that address, host bits kept, or is read so by the library |
| `InventoryRuns.AllowedForTunnel` | internal/server/routes_peers.go:268-271 | whatever site networks follow, the first part of the AllowedIPs built is the granted /32 |
| `InventoryRuns.TunnelIsUsed` | internal/server/routes_peers.go:207-217 | the tunnel address of every peer of the network is among the addresses collected as used |
| `InventoryRuns.PickExactly` | internal/server/routes_peers.go:192-242 | a create is granted x if and only if its role is client, or site-gateway with an accepted site list, x lies in the range, is unused, and every lower address of the range is used |
| `InventoryRuns.NewPeerFits` | internal/server/routes_peers.go:192-271 | the address granted to a new peer is inside its subnet, not reserved and held by no peer of its network |
| `InventoryRuns.CreateNetworkKeeps` | internal/server/routes_networks.go:195-256 | a create keeps subnets disjoint and ports, names and ids distinct |
| `InventoryRuns.CreatePeerKeeps` | internal/server/routes_peers.go:154-339 | a peer create keeps the whole invariant |
| `InventoryRuns.RunKeeps` | internal/server/routes_peers.go:192-271 | every run from an empty system keeps networks apart, peers housed in their network's range and tunnels distinct |
| `InventoryRuns.NetworksStayApart` | internal/server/routes_networks.go:163-227 | after any run two networks share no address, port, interface name or id |
| `InventoryRuns.OrderlyTunnels` | internal/server/routes_peers.go:192-271 | in a state that keeps the invariant no two peers of any networks have the same tunnel address |
| `InventoryRuns.TunnelsNeverShared` | internal/server/routes_peers.go:192-271 | after any run no two peers of any networks have the same tunnel address |
| `InventoryRuns.ReservedNeverHeld` | internal/server/routes_peers.go:192-271 | after any run no peer holds any network's network, server or broadcast address |
| `Interleaving.HalvesMakeCreate` | internal/server/routes_peers.go:194-324 | listing and storing with nothing in between is the create in one step |
| `Interleaving.CommitsClashExactly` | internal/server/routes_peers.go:194-324 | two pending creates of one network end with the same tunnel address if and only if they picked the same |
| `Interleaving.TunnelsDistinctExactly` | internal/server/routes_peers.go:194-324 | over every interleaving of the halves with all other handlers: at each point, whichever pending creates are then stored, no two peers share a tunnel address, if and only if no create picks an address that another create of its network has picked and not yet stored |
| `Interleaving.AloneAvoids` | internal/server/routes_peers.go:194-324 | creates of one network that do not overlap meet that condition |
| `Interleaving.ClashingRun` | internal/server/routes_peers.go:194-324 | a run from the empty system in which two creates list the peers before either stores its row, and both rows get 10.0.0.2 |
| `UsedHosts.HostIsUsed` | internal/server/routes_peers.go:207-217 | every single address in the AllowedIPs the kernel is given for a peer is among the addresses collected as used in its network |
| `Deployment.AllowedParses` | internal/server/routes_peers.go:268-271 | the AllowedIPs built for a peer parse to its tunnel block followed by its site networks, or fail exactly when those do |
| `Deployment.ClientsFit` | internal/server/routes_peers.go:268-271 | creating a client needs no check of site networks |
| `Deployment.CreateFitsExactly` | internal/server/routes_peers.go:192-271 | after a create the lists are readable and the blocks of the network disjoint if and only if its site networks parse, repeat no block, leave out the address granted and are claimed by no other peer there |
| `Deployment.RunDeployable` | internal/server/routes_peers.go:192-271 | every run whose peers are created with site networks that fit keeps lists readable and blocks disjoint within each network |
| `Deployment.DeployableExactly` | internal/server/routes_peers.go:192-271 | that holds after every step of a run if and only if site networks fit at every create |
| `Deployment.DeployableDatabase` | internal/wg/reconcile.go:14-126 | the rows of such a run are a database on which the reconciler's results hold |
| `Deployment.Deploy` | internal/wg/reconcile.go:14-126 | after every such run one reconciliation from any kernel state brings the kernel in step; each interface it had to make has the port and key of its row and is up |
| `SharedSites.SharedSitesNeverSettle` | internal/server/routes_peers.go:192-271 | two gateways of one network created with the same site networks: no sequence of kernel calls ever makes a device agree with their rows |
| `SharedSites.SharedSitesRun` | internal/server/routes_peers.go:192-271 | such creates succeed: a run of three calls ends in two rows of one network that claim 192.168.5.0/24 |
| `Provision.OpenFirewall` | internal/server/routes_networks.go:281-330 | the calls are made in order up to the first that fails, and their rules are in the map; all of them succeed if the applier never fails |
| `Provision.MakeNetwork` | internal/server/routes_networks.go:258-347 | success means interface set up, all rules added and row stored; after a failure other interfaces are untouched, all links are as before if no kernel call failed, and the rules added stay |
| `Provision.RulesStayExactly` | internal/server/routes_networks.go:280-347 | a failed create leaves the rule map as before if and only if every rule it had added by then was there already |
| `Provision.PortStaysOpen` | internal/server/routes_networks.go:332-347 | so a network on a new port whose row could not be stored leaves its port rule behind |
| `Provision.AddsOwn` | internal/server/routes_networks.go:281-330 | the calls of a create add exactly the network's port rule, its masquerade when asked for and its inter-peer rule when asked for, and change no rule that was there |
| `Provision.MasqueradesExactly` | internal/server/routes_networks.go:297-312 | after a create an interface is masqueraded if and only if it was before, or is the new one and masquerading was asked for |
| `Provision.CloseFirewall` | internal/server/routes_networks.go:623-688 | bridges, port, masquerade and forwarding are removed in that order, each whether or not the one before failed; exactly the rules whose removal went through are gone, all of them if none fails |
| `Provision.CreateThenDelete` | internal/server/routes_networks.go:281-688 | create then delete gives the rule map back if and only if none of the keys that the delete removes was in use before; in any case none of them is left |
| `Provision.MakePeer` | internal/server/routes_peers.go:300-339 | success means the device has the peer with its blocks and the row is stored; with no kernel fault the device otherwise is what adding and removing the peer leaves |
| `Provision.UndoneExactly` | internal/server/routes_peers.go:325-336 | that clean-up restores the device if and only if the key was new and no other peer held one of the blocks |
| `Handlers.Server.Admit` | internal/server/routes_networks.go:189-242 | admitted if and only if the subnet reads as IPv4 from /16 to /30 in an RFC 1918 range, the port is from 1024 to 65535, no stored subnet shares an address and no stored network has the port; the name is then the least unused one, and the admission is exactly a create step of the run |
| `Handlers.Server.HandleCreateNetwork` | internal/server/routes_networks.go:180-347 | one network-create step of the run, taken exactly when the handler succeeds; it succeeds only when admitted and stored, and always then if neither kernel nor firewall fails and the name is free in the kernel; interface, rules and row go together, with the clean-up of the source on a failure; the invariant is kept |
| `Handlers.Server.HandleDeleteNetwork` | internal/server/routes_networks.go:597-716 | firewall rules, interface and row go, a failing removal of the first two notwithstanding: one delete step of the run exactly when the row's delete succeeds; without kernel fault the interface is gone; other interfaces are untouched |
| `Handlers.Server.AllocateFor` | internal/server/routes_peers.go:192-242 | a fresh allocator over the collected addresses grants what the run's step says |
| `Handlers.Server.HandleCreatePeer` | internal/server/routes_peers.go:154-339 | one peer-create step of the run, taken exactly when the handler succeeds: only with accepted fields, a granted address and a stored row, and without kernel fault exactly when the device is there and the list parses; then the device of that network has the peer with the blocks of its row; other interfaces are untouched; without kernel fault a failure leaves what adding and removing the peer leaves; the invariant is kept |
| `Handlers.Server.HandleDeletePeer` | internal/server/routes_peers.go:618-680 | the peer leaves the device of its network and the row is deleted, a failing kernel call notwithstanding; refused, with nothing touched, for a peer of another network |
| `Lockstep.PeerAttempted` | internal/server/routes_peers.go:300-339 | with site networks that fit, a create that reached the device adds the peer to rows and device together, or leaves the device as it was |
| `Lockstep.PeerRemoved` | internal/server/routes_peers.go:649-680 | removing a key and its row keeps every device in step |
| `Lockstep.NetworkRemoved` | internal/server/routes_networks.go:690-716 | removing an interface with its rows keeps every other device in step |
| `Lockstep.TracksInStep` | internal/wg/reconcile.go:14-126 | devices that hold exactly the peers stored for them are what the reconciler calls in step |
| `Lockstep.Serve` | internal/server/routes_networks.go:180-716 | each of the four handlers, without kernel fault and with fitting site networks, keeps rows and kernel together, whatever the firewall and the inserts do; only requests that can be met succeed, and all of those do, a new network given a working firewall and a free name |
| `Lockstep.ServeAll` | internal/server/routes_networks.go:180-716 | any sequence of requests, each one step of the run, keeps the kernel in step with the database without any reconciliation |
| `Lockstep.EmptyTogether` | internal/server/routes_networks.go:180-716 | such a run can start from the empty system with any kernel |
| `WgQuick.ParseWgQuickConfig` | internal/wg/import.go:34-125 | the scanner loop computes the parse whose meaning the rows below give, the error cases included |
| `WgQuickSpec.ParseIsMeaning` | internal/wg/import.go:34-125 | for every text: a line over 65,535 bytes fails it, then a missing private key; otherwise the result has, field by field, the last value its key is given in the interface sections, and one peer for each peer header with the last values under that header; a number that does not parse is passed over |
| `WgQuickSpec.ValueExactly` | internal/wg/import.go:64-70 | a line gives a key a value if and only if it is white space, the key in any case, white space, an equals sign, white space, the value and white space |
| `WgQuickSpec.HeaderExactly` | internal/wg/import.go:50-62 | a section header is its name in any case, alone on its line but for white space |
| `WgQuickSpec.LowerExactly` | internal/wg/import.go:50-69 | exactly which characters read as a lower-case letter |
| `WgQuickSpec.InterfaceLine` | internal/wg/import.go:72-89 | in an interface section each of the five keys sets its own field, numbers only when they parse, and every other field stays |
| `WgQuickSpec.PeerLine` | internal/wg/import.go:90-108 | likewise for the five keys of an open peer |
| `WgQuickSpec.IdleLine` | internal/wg/import.go:43-46 | blank lines, comments of either kind and lines that are neither header nor assignment change nothing |
| `WgQuickSpec.LinesOfText` | internal/wg/import.go:35-42 | lines and text determine each other; the newline after the last line may be missing |
| `WgQuick.LinesRoundTrip` | internal/wg/import.go:41-42 | scanning the lines of a text made of single lines gives those lines |
| `WgQuick.AtoiPrintInt` | internal/wg/import.go:80-82 | reading a printed 64-bit integer gives it back |
| `WgQuickSpec.AtoiExactly` | internal/wg/import.go:79-88 | a number is read if and only if it is an optional sign and digits within 64 bits |
| `WgQuickSpec.Utf8Exactly` | internal/wg/import.go:35-41 | bytes of a character, by section 3 of RFC 3629: the fewest whose payload holds it |
| `WgQuickSpec.ByteLenConcat` | internal/wg/import.go:35-41 | the length in bytes of joined text is the sum |
| `WgQuickGen.ReadSetting` | internal/wg/import.go:64-70 | a printed setting line is read as the same key, lower-cased, and the same value, empty values included |
| `WgQuickGen.ReadSections` | internal/wg/import.go:49-62 | a section line switches section, and a peer section files the peer open before it |
| `WgQuickGen.ReadPeers` | internal/wg/import.go:55-114 | reading the printed peer sections collects the peers in order and leaves the interface fields alone |
| `WgQuickGen.ReadNat` | internal/wg/export.go:41-44 | the masquerade lines change nothing for the parser |
| `WgQuickGen.FullServer` | internal/wg/export.go:32-61 | the lines of a server file in which every optional line is present, word for word, NAT on the default interface |
| `WgQuickGen.BareServer` | internal/wg/export.go:32-61 | the lines when no optional line is present |
| `WgQuickGen.FullClient` | internal/wg/config_gen.go:9-28 | the lines of a client file with every optional line |
| `WgQuickGen.MasqueradeWords` | internal/wg/export.go:41-44 | the rules are appended when the interface comes up and deleted when it goes down, for IPv4 and IPv6 |
| `WgQuickGen.GeneratedExactly` | internal/wg/export.go:64-70 | a server file is generated if and only if it has a private key and a port, a client file if and only if private key, server key, endpoint and AllowedIPs are there |
| `WgQuickGen.ServerRoundTrip` | internal/wg/export.go:32-78 | parsing the generated server file gives key, address, port, DNS and the peers in order, or LineTooLong exactly when a line does not fit |
| `WgQuickGen.ClientRoundTrip` | internal/wg/config_gen.go:9-50 | parsing the generated client file gives its interface fields and its single peer, or LineTooLong exactly when a line does not fit |
| `WgQuickGen.LongAllowedIPs` | internal/wg/import.go:116-118 | a peer with AllowedIPs of 65,536 characters or more makes the exported file unreadable |
| `WgQuickGen.LongFilesExist` | internal/wg/import.go:116-118 | a server file and a client file that generate and do not parse |
| `NftRules.PairCanonical` | internal/nft/rules.go:51-56 | the pair text does not depend on the order of the names |
| `NftRules.BridgeKeyIdentifies` | internal/nft/rules.go:46-56 | for colon-free names two keys are equal exactly for the same unordered pair |
| `NftRules.ColonNamesCollide` | internal/nft/rules.go:46-56 | two different pairs with a colon in a name have one key |
| `NftRules.KeyUniqueExactly` | internal/nft/rules.go:46-56 | a pair has its key to itself if and only if only one colon of the pair text cuts it into two names in order |
| `NftRules.ExpansionsAgree` | internal/nft/rules.go:71-109 | dump entries and installed expressions both give exactly the pairs a rule is meant to accept |
| `NftRules.BeforeExactly` | internal/nft/rules.go:117-123 | the string order: the first difference decides, or else the length |
| `NftHistory.StepKeeps` | internal/nft/manager.go:42-417 | one mutator call, however its apply ends, keeps rules under their own keys and memory equal to the last set applied; failing, it leaves the map as before |
| `NftHistory.MemoryIsLastApplied` | internal/nft/manager.go:42-417 | the same over every run of the eight mutators |
| `NftHistory.LostNext` | internal/nft/applier.go:34-125 | a table is lost by a failed flush and comes back with the next apply that goes through |
| `NftHistory.TableState` | internal/nft/applier.go:23-127 | the kernel table holds memory's rules, or nothing if some flush failed and no apply has gone through since |
| `NftHistory.InSyncExactly` | internal/nft/applier.go:34-125 | kernel and memory agree exactly when no flush has failed since the last success or memory is empty |
| `NftHistory.FailedFlushDisconnects` | internal/nft/applier.go:34-125 | two calls after which memory has a rule and the kernel has none |
| `NftHistory.KeyIdentifies` | internal/nft/rules.go:30-56 | two subjects of calls have the same key exactly when they are the same subject, bridges taken as unordered pairs |
| `NftHistory.MapIsHistory` | internal/nft/manager.go:42-400 | the map holds for each subject what the successful calls leave: the first add, or for bridges the last, since the last removal |
| `NftHistory.AcceptedIsHistory` | internal/nft/manager.go:42-400 | traffic is accepted if and only if, read off the fields of the successful calls, forwarding on the interface was last enabled, or the last call about the pair set a bridge in a direction that opens the way |
| `NftHistory.LastBridgeOpens` | internal/nft/manager.go:219-269 | right after a successful bridge call from a to b, a to b is accepted exactly for a_to_b and bidirectional, b to a exactly for b_to_a and bidirectional |
| `NftHistory.PortIsHistory` | internal/nft/manager.go:317-400 | memory opens a port if and only if the last successful call about it opened it |
| `NftHistory.NatIsHistory` | internal/nft/manager.go:42-130 | memory masquerades an interface for a subnet if and only if that is the subnet of the first successful add since the last removal |
| `NftManager.Partition` | internal/nft/applier.go:55-65 | every rule goes to the one chain of its kind |
| `NftManager.ForwardChain` | internal/nft/applier.go:104-121 | the forward chain accepts exactly the pairs some rule is for |
| `NftManager.InputChain` | internal/nft/applier.go:68-83 | the input chain opens exactly the ports, modulo 2^16, of its rules |
| `NftManager.NatChain` | internal/nft/applier.go:86-101 | the postrouting chain masquerades exactly for the interfaces of its rules |
| `NftManager.BuildTable` | internal/nft/applier.go:44-121 | the table built from rules in any order has each chain exactly as the rules call for; no table for no rules |
| `NftManager.Applier.Apply` | internal/nft/applier.go:23-127 | old table deleted before the new one is flushed: success installs the rules, an early failure changes nothing, a late one leaves no table |
| `NftManager.Manager.Push` | internal/nft/manager.go:411-417 | hands exactly the rules of the map to the applier, in any order |
| `NftManager.Manager.AddRule` | internal/nft/manager.go:57-80 | the add shared by three mutators is one step of the run: idempotent, rolled back on failure |
| `NftManager.Manager.RemoveRule` | internal/nft/manager.go:101-122 | the removal shared by four mutators is one step of the run: idempotent, restored on failure |
| `NftManager.Manager.AddNATMasquerade` | internal/nft/manager.go:42-89 | one step of the run, rolled back on failure |
| `NftManager.Manager.RemoveNATMasquerade` | internal/nft/manager.go:92-130 | one step of the run, restored on failure |
| `NftManager.Manager.EnableInterPeerForwarding` | internal/nft/manager.go:133-175 | one step of the run, rolled back on failure |
| `NftManager.Manager.DisableInterPeerForwarding` | internal/nft/manager.go:178-216 | one step of the run, restored on failure |
| `NftManager.Manager.AddNetworkBridge` | internal/nft/manager.go:219-269 | refused for any direction but the three; otherwise one step of the run, and the rule stored under the pair's key has the two interfaces in the order given |
| `NftManager.Manager.RemoveNetworkBridge` | internal/nft/manager.go:272-314 | one step of the run, restored on failure |
| `NftManager.Manager.OpenUDPPort` | internal/nft/manager.go:317-359 | one step of the run, rolled back on failure |
| `NftManager.Manager.CloseUDPPort` | internal/nft/manager.go:362-400 | one step of the run, restored on failure |
| `NftDump.SelectRules` | internal/nft/rules.go:117-149 | ports and masquerades in ascending order of their keys, forward entries ascending by incoming then outgoing interface; a pair is listed exactly when memory accepts it |
| `NftDump.SortedKeysUnique` | internal/nft/rules.go:118-122 | there is one sorted listing of the keys, so the dump does not depend on how the map is walked |
| `NftDump.DumpAccepts` | internal/nft/rules.go:124-149 | any listing of the expanded entries has exactly the accepted pairs |
| `NftDump.InstalledIsDumpedIsIntended` | internal/nft/applier.go:54-163 | after any run the dump lists exactly the pairs the history calls for, and the forward chain of the table accepts exactly those, or none if a failed flush has lost the table |
| `NftDump.TableIsIntended` | internal/nft/applier.go:23-127 | the kernel table opens a port and masquerades an interface exactly as the calls last asked, or has nothing after a failed flush |
| `NftText.FormatRuleset` | internal/nft/rules.go:112-186 | the printed dump; for names printed plainly between quotes, the pairs read off its lines are exactly those memory accepts |
| `NftText.DumpReads` | internal/nft/rules.go:151-186 | the lines of the dump text name a pair exactly when the dump has an entry for it: headings, port lines and masquerade lines name none |
| `NftLines.DumpSays` | internal/nft/rules.go:112-186 | of the printed dump: its port lines are exactly the ports of the rules, its masquerade lines exactly the interfaces and subnets of the rules, and every accepted pair has its line |
| `NftLines.DumpFrame` | internal/nft/rules.go:151-186 | the headings of the table and its chains, word for word |
| `RateLimit.Compact` | internal/auth/rate_limit.go:40-46 | filtering into the front of the same array leaves the unexpired times in order |
| `RateLimit.Append` | internal/auth/rate_limit.go:53 | appending into spare capacity or a larger array adds one time and disturbs none |
| `RateLimit.LoginRateLimiter.Allow` | internal/auth/rate_limit.go:32-55 | the call on shared backing arrays is the step on recorded times, for this address alone |
| `RateLimit.LoginRateLimiter.Cleanup` | internal/auth/rate_limit.go:70-87 | the clean-up keeps exactly the unexpired times of every address and drops empty entries |
| `RateLimit.SweepsChangeNothing` | internal/auth/rate_limit.go:32-90 | with a clock that does not go back, clean-ups anywhere change no answer: all answers are those of a limiter that remembers every grant |
| `RateLimit.ReferenceBound` | internal/auth/rate_limit.go:48-54 | that reference limiter grants at most limit attempts in any window (T - window, T] |
| `RateLimit.LimitHolds` | internal/auth/rate_limit.go:32-90 | so does the real one, in every run, for every address and every T |
| `RateLimit.RefusedExactly` | internal/auth/rate_limit.go:48-54 | an attempt is refused exactly when limit grants already lie in its window |
| `Base64.RoundTrip` | internal/crypto/encryption.go:56-65 | decoding an encoding gives the bytes back, lengths as in section 4 of RFC 4648 |
| `Base64.DigitsAreAlphabet` | internal/crypto/encryption.go:35-57 | the digits are those of table 1 of RFC 4648, and no other byte is one |
| `Base64.DecodedIsEncoded` | internal/crypto/encryption.go:60-70 | only encodings are decoded, up to the unused low bits before the padding |
| `Base64.BreaksSkipped` | internal/crypto/encryption.go:60-70 | line breaks anywhere in the text make no difference to decoding |
| `Base64.TestVectors` | internal/crypto/encryption.go:35-57 | the short vectors of section 10 of RFC 4648 |
| `KeyStore.DecryptEncrypt` | internal/crypto/encryption.go:35-93 | decrypting an encryption gives the plaintext, empty or not |
| `KeyStore.RecognisedExactly` | internal/crypto/encryption.go:98-111 | an encryption is recognised as one if and only if the plaintext is not four bytes long |
| `KeyStore.TakenForCiphertext` | internal/crypto/encryption.go:60-111 | base64 text is taken for ciphertext if and only if it decodes to 29 bytes or more, 32 excepted; less than 29 bytes are never decrypted |
| `KeyStore.ReadBackExactly` | internal/db/peers.go:35-173 | a value inserted is read back if and only if it is not four bytes long |
| `KeyStore.KeyFacts` | internal/crypto/encryption.go:98-111 | a WireGuard key has 44 characters and is never taken for an encryption |
| `KeyStore.KeysAreStorable` | internal/crypto/encryption.go:98-111 | absent keys and WireGuard keys are storable |
| `KeyStore.ExpiryInFields` | internal/db/peers.go:220-256 | after an expiry check a row is enabled if and only if it was and its write failed, it has no expiry, or its expiry is not before now |
| `KeyStore.SealedFacts` | internal/crypto/encryption.go:98-111 | one layer over a storable value is recognised, decrypts to the value and differs from it |
| `KeyStore.InsertStores` | internal/db/peers.go:38-53 | inserting a storable value stores it under one layer when encryption is configured |
| `KeyStore.FetchReads` | internal/db/peers.go:154-173 | reading a stored value, plain or under one layer, gives the key |
| `KeyStore.UpdateSeals` | internal/db/peers.go:179-194 | writing back either the key or the stored value leaves exactly one layer |
| `KeyStore.StepHolds` | internal/db/peers.go:35-256 | every operation keeps each row storing its true key, and keeps all rows sealed once they are |
| `KeyStore.ReadsReturnTheKey` | internal/db/networks.go:33-164 | after any run of creates, updates, deletes, expiries and migrations over storable values every read returns the key put in |
| `KeyStore.MigrationSeals` | internal/db/migrate.go:100-212 | a migration that completes leaves every row under exactly one layer |
| `KeyStore.OneLayerForEver` | internal/monitor/expiry.go:75-127 | after a complete migration, whatever follows, including write-backs of undecrypted rows, every storable value is absent or under exactly one layer |
| `KeyStore.SecondMigrationIdle` | internal/db/migrate.go:100-212 | a further migration changes no row |
| `KeyStore.BareAfterEdit` | internal/db/peers.go:176-218 | a value that itself looks encrypted is read back after the insert, but the next update stores it with no layer at all |
| `KeyStore.FortyBytesNotStorable` | internal/crypto/encryption.go:98-111 | forty bytes in base64 are such a value |
| `KeyStore.LayeringExactly` | internal/db/peers.go:35-256 | every migrated run over a value keeps it under exactly one layer and returns it on reading, if and only if the value is absent, or is not four bytes long and does not look encrypted |
| `KeyTables.Tables.SetEncryptionKey` | internal/db/db.go:75-78 | from here on writes encrypt; no row changes |
| `KeyTables.Tables.InsertNetwork` | internal/db/networks.go:33-58 | one create step of the run |
| `KeyTables.Tables.GetNetwork` | internal/db/networks.go:61-86 | the decrypted key, an absent row, or a key that does not decrypt |
| `KeyTables.Tables.UpdateNetwork` | internal/db/networks.go:138-164 | encrypts unless the value already looks encrypted, on that row alone |
| `KeyTables.Tables.ChangeNetwork` | internal/db/networks.go:138-164 | reading a network and writing it back is one edit step of the run |
| `KeyTables.Tables.InsertPeer` | internal/db/peers.go:35-77 | one create step of the run, both keys |
| `KeyTables.Tables.GetPeer` | internal/db/peers.go:80-173 | both keys decrypted, or failing when either does not decrypt |
| `KeyTables.Tables.UpdatePeer` | internal/db/peers.go:176-218 | encrypts each key that does not look encrypted, on that row alone |
| `KeyTables.Tables.ChangePeer` | internal/db/peers.go:176-218 | reading a peer and writing it back is one edit step of the run |
| `KeyTables.Tables.ListExpired` | internal/db/peers.go:221-256 | exactly the enabled rows that have an expiry before now, each once |
| `KeyTables.Tables.CheckExpiry` | internal/monitor/expiry.go:75-127 | one expiry step; column by column: a row stays enabled if and only if it was and its write failed, it has no expiry, or its expiry is not before now |
| `KeyTables.RewriteRows` | internal/db/migrate.go:114-146 | the rows that encryption changes are rewritten one by one; it ends early only at a write that fails |
| `KeyTables.Tables.MigrateEncryptKeys` | internal/db/migrate.go:100-212 | one migration step of the run, complete when it returns without error, nothing when no key is configured; an error means that some write failed |

## Left out

- HTTP decoding, responses, audit, logging, middleware and the web interface: plumbing.
- The netlink, wgctrl and nftables libraries and the bytes they exchange: represented by the kernel's and applier's calls, each of which may fail.
- AES-GCM, HKDF and key generation: a cipher is anything that opens what it sealed and adds 16 bytes; nonces and public keys are inputs. The one error `Encrypt` can return, a failing random source, is not modelled.
- SQL and SQLite: tables are maps and sequences with the unique columns, the cascade and the never reused ids the schema declares; the outcome of an insert is an input.
- IPv6 text: reading and printing it are parameters. Of reading it is asked that whatever is accepted has no white space around it and becomes a masked block whose own text reads back as that block, and that block and address read from one text go together; of printing, nothing.
- The overlap check against a network whose stored subnet is IPv6: no such network comes from the handlers modelled, only from a configuration import.
- Preshared keys, endpoints and keepalive in the kernel: the reconciler compares AllowedIPs only, so the kernel model holds only those.
- The logging of orphaned interfaces at the end of a reconciliation, and the reconciliation of bridges.
- `Handlers.Server.HandleCreateNetwork`: the checks on name, mode and DNS servers are one input, and the kernel and firewall managers are taken to be present.
- `Handlers.Server.HandleDeleteNetwork`: the stored flags and bridges of the network are inputs, as are its bridges' other interfaces.
- `Handlers.Server.HandleCreatePeer`: the checks on name, e-mail, keepalive and expiry are one input, and the kernel manager is taken to be present.
- Setup step 3, configuration import, network and peer updates: they do not check for overlap or reallocate addresses, so they are not steps of the runs. What they can store is covered where it matters: any IPv4 or IPv6 subnet in the allocator, any AllowedIPs in the reconciler, any value in the exact statement on key layering.
- `NftText.FormatRuleset`: how the verb %q prints a name is a parameter; the statement on what can be read off the text is for names it prints as they are, between quotes.
- Configuration text that is not valid UTF-8, and lower-casing of characters other than those whose lower case is an ASCII letter: they cannot spell a key or section name.
- `ComputeClientAllowedIPs`, `Used`, `ServerIP`, peer status, traffic sampling, alerts, users, settings, API keys, TLS, updates and the command line: easy or input and output only.
- `RateLimit.LoginRateLimiter.Allow`: times are integers handed in, and the lock makes each call one step.
