# The libnfs client and the trash move, modelled and proved

Twig reaches NFS servers through a vendored copy of libnfs and moves files to its
trash with a few lines of C. This project models the parts of that code that are
hard to get right, in the form the code has (buffers rewritten in place, linked
lists, callbacks that update shared state), and proves what they promise, for all
inputs, all servers and all interleavings.

| Part | Modules | Main result |
|---|---|---|
| Path normalisation | `CStrings`, `Paths`, `NormalizePath` | five rewriting passes over a C string equal a fold over a stack of components |
| Path lookup | `Resolver`, `LookupEnds`, `LookupWalker`, `Lexical` | the walker over one shared, temporarily cut buffer sends the same RPCs and gives the same answer as a resolver over lists, against any server, and always ends; how it ends is read from the replies; and exactly which links lead it astray |
| XDR | `Bytes`, `Xdr`, `WireForm`, `XdrRoundTrip`, `Zdr` | for every type built from the primitives, except floating point: exactly when an encoding is decoded to what it encodes, prefix-freeness, the bytes on the wire, and termination on any input; the codec over a mutable buffer refines the reference |
| RPC headers, results, AUTH_SYS | `RpcMessage`, `Nfs3Results`, `AuthSys` | headers, two NFSv3 results and credentials, spelled out word by word, decode to what was sent |
| Trash move | `TrashMoves`, `MoveOutcomes`, `MoveNoReplace` | no interleaving of movers and creators displaces an object or loses a source, and a move succeeds exactly if its own calls do |
| Scatter cursor | `Cursor` | copying through segments equals writing to their flattened addresses; reset restores everything |
| Split I/O | `SplitWrite`, `SplitRead` | three layers of continuation store, or read, exactly one contiguous piece, and fail exactly with the reply that calls for it |
| Directory cache | `SList`, `DirCache`, `Client` | a linked list refines a bounded sequence; a listing served to a lookup that reports the present modification time has the present entries, if the directory had that time already when its enumeration began |
| Opening a directory | `Readdir`, `ChangingDir`, `OpenDir` | paged enumeration lists each entry once, with the attributes sent; with servers whose answers depend on the request alone it ends exactly if no request is repeated; missing attributes arrive in any order |
| Renaming | `Rename` | two lookups and one request: one callback, at most one RENAME, of which name in which handle, and exactly which paths are renamed as their last component |
| Mounting | `FanOut` | the counters of both fan-outs reach zero once |
| Purging, fragments, URLs | `Purge`, `Fragments`, `Unescape` | every PDU is handled once; fragments are the record so far; in-place unescaping is one left-to-right pass |

A reference (`Resolver`, `Xdr`, `Readdir`, the pure part of `TrashMoves`) is written
for reading, and properties are proved about it; the classes and methods are the
code, proved to agree with their reference.

## What does not hold

The code does not do everything its comments or the standards suggest. Each
departure is shown by a lemma, and where it depends on the input a lemma says exactly
when it occurs.

- A link is not always followed to where it is meant to lead, even by the text of the
  path: an absolute target drops the names after the link, and in an export written
  with a final slash is found only with another slash there; a relative link in a nested export is resolved
  from the root; and a link that leads into a nested export misses it
  (`Lexical.DropsNames`, `Lexical.RootExportMisses`, `Lexical.WrongExportAfterLink`,
  `Lexical.DepartsIff`). Lookups without such a link go as meant
  (`Lexical.LookupAsMeant`).
- The bit of O_NOFOLLOW is tested in whatever number a caller passes: truncating to
  some lengths, and changing or making a mode that has the bit, refuse links. Links
  inside a path are refused too (`Resolver.CallerRefuses`, `Resolver.LinkRefusedIff`,
  `Lexical.RefusedWithoutAsking`).
- A lookup does not always start in the longest nested export that its path lies in
  (`Resolver.WrongExport`, `Resolver.SelectIsLongest`).
- The root normalises to `/` or to the empty string, and the empty string is
  rejected when normalised again (`Paths.CanonicalIsNormal`).
- The guard on array counts takes every element for at least a word and rejects
  some arrays of smaller ones (`XdrRoundTrip.GuardRejects`, `XdrRoundTrip.RoundTrip`).
- A credential with a host name of more than 255 bytes is sent, and cannot be
  decoded by a receiver that keeps to RFC 5531 (`AuthSys.CredentialRoundTrip`).
- A directory that is open twice is cached twice, and a change then forgets only
  one listing; one that is held open across a change is cached afterwards as it was
  before (`DirCache.ChangeMayNotForget`, `DirCache.ClosedAfterChange`,
  `DirCache.ChangeForgets`, `DirCache.StaleAfterChange`). The modification time is
  still compared before such a listing is served.
- That does not help where a directory changes between two pages: its listing is kept
  under the time of the last page, old first pages included, and served while that
  time is the present one (`DirCache.MixedIsServed`, `DirCache.ServedIsCurrent`).
- A lookup reply without attributes counts as modification time zero, and so does a
  listing without directory attributes: the two match, and the old listing is served
  whatever has happened since (`DirCache.NoTimeIsServed`, `DirCache.ServedIsCurrent`).
- A listing served shows the sizes, and the other attributes, of when it was
  enumerated: writing to a file does not change its directory
  (`DirCache.OldSizesAreServed`, `DirCache.ServedWasEnumerated`).
- Falling back to READDIR in mid-directory sends a zero cookie verifier, which a
  server that checks verifiers refuses (`Readdir.OpensWhole`).
- The check that the cookie moves does not stop a server that alternates between
  two cookies (`Readdir.MayNotEnd`). Of servers whose answers depend on the request
  alone, exactly those that never lead to the same request twice let a scan end
  (`Readdir.EndsIff`).
- A comment in `nfs3_mount_3_cb` says that failures below the mount should not fail
  it. A refused or failed nested MOUNT does fail it, and a timeout that comes after
  a cancellation hides it (`FanOut.MountGoesOnIff`, `FanOut.OrderDecides`).
- The directory of a path like `/x` is looked up as the empty path, which is the
  current directory and not the root, and of one like `/d/` the empty name is renamed
  (`Rename.RootMeansCurrent`, `Rename.FinalSlashIsNoName`, `Rename.RenamesTheLast`).
- An escaped terminator in a URL does not stop the unescaping loop, but ends the
  string that the rest of the parser sees (`Unescape.SeenAsString`).

## Assumptions

- An RPC is a request that cannot be sent or later gets exactly one reply, which may
  be a failure. Replies are chosen by an arbitrary server, given as a function or
  script; where a property needs an honest or unchanging one, a predicate says so.
- Memory allocation succeeds. Buffers are shorter than 2^31 bytes.
- The assertions in `libnfs-zdr.c` are taken as compiled out; the alignment they
  state is part of the codec's invariant, except at the odd end of a decoded buffer.
- Signed 32- and 64-bit integers are modelled by their bit patterns.
- Where a directory changes while it is read, its modification time never goes back,
  and the same time means the same names, file numbers, cookies and verifier. What its
  files are like may change at any time.
- O_NOFOLLOW is the bit it is on ARM.
- In the trash model outsiders only add absent names, for new files or as hard links of
  old ones; nobody else removes, replaces or fills a reservation; and sources are
  distinct and never destinations.

## Model

| member | source | states |
|---|---|---|
| `NormalizePath.Normalize` | fs-nfs/src/main/cpp/libnfs/lib/libnfs.c:1405-1504 | Succeeds exactly when the path starts with a slash and the fold of its components never pops an empty stack; the buffer then holds the normal form, and nothing past the old terminator was touched |
| `NormalizePath.CollapseSlashes` | fs-nfs/src/main/cpp/libnfs/lib/libnfs.c:1411-1417 | Removes every "//" without changing what the path folds to |
| `NormalizePath.CollapseDots` | fs-nfs/src/main/cpp/libnfs/lib/libnfs.c:1419-1425 | Removes every "/./" without changing what the path folds to or bringing "//" back |
| `NormalizePath.CollapseParents` | fs-nfs/src/main/cpp/libnfs/lib/libnfs.c:1427-1460 | Removes every "/name/../" without changing what the path folds to, or stops at a leading "/../" |
| `NormalizePath.ParentCut` | fs-nfs/src/main/cpp/libnfs/lib/libnfs.c:1453-1459 | Cutting out the name before the first "/../" preserves the fold and creates none of the patterns removed earlier |
| `NormalizePath.CutKeepsAbsent` | fs-nfs/src/main/cpp/libnfs/lib/libnfs.c:1411-1460 | No pass brings back a pattern that an earlier pass removed |
| `NormalizePath.TrimEnd` | fs-nfs/src/main/cpp/libnfs/lib/libnfs.c:1462-1503 | The last piece of a path without inner patterns is handled so that the buffer ends up in normal form, or the path is rejected if that piece pops the empty stack |
| `NormalizePath.CanonicalOfClean` | fs-nfs/src/main/cpp/libnfs/lib/libnfs.c:1462-1503 | What the normal form is for each kind of last piece |
| `NormalizePath.CanonicalOfParent` | fs-nfs/src/main/cpp/libnfs/lib/libnfs.c:1493-1501 | A last ".." takes the component before it away |
| `NormalizePath.StartsUp` | fs-nfs/src/main/cpp/libnfs/lib/libnfs.c:1427-1433 | A path that starts with "/../" has no normal form |
| `Paths.CanonicalIsNormal` | fs-nfs/src/main/cpp/libnfs/lib/libnfs.c:1405-1504 | The normal form has proper components only, folds to what the path folds to, is no longer than the path, and is a fixed point unless it is empty, when it is rejected |
| `Paths.FoldSucceeds` | fs-nfs/src/main/cpp/libnfs/lib/libnfs.c:1427-1503 | The fold fails exactly if some prefix of the components pops more than was pushed; otherwise its length is the difference |
| `Paths.NormalForm` | fs-nfs/src/main/cpp/libnfs/lib/libnfs.c:1405-1504 | Spelling out proper components and folding gives them back |
| `Paths.SplitJoin` | fs-nfs/src/main/cpp/libnfs/lib/libnfs.c:1405-1504 | Splitting at slashes undoes joining with slashes |
| `Paths.JoinSplit` | fs-nfs/src/main/cpp/libnfs/lib/libnfs.c:1405-1504 | Joining undoes splitting |
| `Paths.FoldShrinks` | fs-nfs/src/main/cpp/libnfs/lib/libnfs.c:1405-1504 | Folding never makes a path longer, so the rewriting fits its buffer |
| `CStrings.StrStr` | fs-nfs/src/main/cpp/libnfs/lib/libnfs.c:1412-1443 | The first occurrence of a pattern, found without reading past the terminator |
| `CStrings.ShiftDown` | fs-nfs/src/main/cpp/libnfs/lib/libnfs.c:1413-1424 | Shifting the tail down deletes exactly the characters skipped |
| `LookupWalker.LookUp` | fs-nfs/src/main/cpp/libnfs/lib/nfs_v3.c:128-567 | A lookup that is accepted runs the caller's callback or continuation exactly once, with the outcome and after exactly the RPCs of the reference resolver, against any server and with any nested mounts; one that is refused runs neither. Every RPC but the last was answered, and an unanswered last one gives its own status |
| `LookupEnds.LookupEnds` | fs-nfs/src/main/cpp/libnfs/lib/nfs_v3.c:128-567 | How a whole lookup ends, from the replies and in numbers: each RPC but the last was answered; one that was not gives -14, -4 or the error of the server; if all were, an error is -12 with the next RPC not sent, -40 with forty links read or links refused, or -2 right after a READLINK |
| `LookupEnds.PlainLookup` | fs-nfs/src/main/cpp/libnfs/lib/nfs_v3.c:320-567 | Where no name is a link, except perhaps a last one not to be followed, the RPCs of a lookup are one LOOKUP for each component of the path, in the directory the one before it is, and it goes on with what the last one finds |
| `LookupEnds.MountedLookup` | fs-nfs/src/main/cpp/libnfs/lib/nfs_v3.c:510-547 | The same in a nested export, from its handle and with what is left of the path below it |
| `LookupEnds.RootLookup` | fs-nfs/src/main/cpp/libnfs/lib/nfs_v3.c:510-567 | The root, unless it is a link, is answered by one GETATTR, or without any RPC if the path ends in a slash and no export is mounted there |
| `LookupEnds.LinkGoesOn` | fs-nfs/src/main/cpp/libnfs/lib/nfs_v3.c:187-249 | After a link the lookup goes on from the root, with one link more, along what the directory of the link, a relative target and the names after it fold to, or along what an absolute target is below the export; it ends with -2 if there is no such path |
| `LookupEnds.StartsFrom` | fs-nfs/src/main/cpp/libnfs/lib/nfs_v3.c:461-508 | A path starts from the current directory unless it begins with a slash: its components are folded onto those of that directory |
| `LookupEnds.RefusedIff` | fs-nfs/src/main/cpp/libnfs/lib/nfs_v3.c:461-567 | A lookup is refused exactly if its path climbs above the root, or is the root without a final slash and the GETATTR cannot be sent |
| `LookupWalker.Walk.Internal` | fs-nfs/src/main/cpp/libnfs/lib/nfs_v3.c:320-424 | One step from a handle: the same request, continuation or error as the reference, with less left to do |
| `LookupWalker.Walk.LookUpName` | fs-nfs/src/main/cpp/libnfs/lib/nfs_v3.c:373-423 | The name is cut out of the shared buffer with a temporary terminator, looked up, and the buffer is as before when the RPC is in flight |
| `LookupWalker.Walk.SendReadLink` | fs-nfs/src/main/cpp/libnfs/lib/nfs_v3.c:334-371 | At a link the walk reads it, or ends with ELOOP at the bound or under no-follow, as the reference does; the buffer is unchanged |
| `LookupWalker.Walk.LookupReply` | fs-nfs/src/main/cpp/libnfs/lib/nfs_v3.c:128-318 | The reply to LOOKUP ends the walk, with EFAULT for a failure in transit, EINTR for a cancellation or timeout and otherwise the server's error, or lets it go on with fewer names left |
| `LookupWalker.Walk.ReadLinkReply` | fs-nfs/src/main/cpp/libnfs/lib/nfs_v3.c:128-255 | The reply to READLINK ends the walk, with the same statuses, or restarts it at the root with one link less to go |
| `LookupWalker.Walk.NewPath` | fs-nfs/src/main/cpp/libnfs/lib/nfs_v3.c:187-236 | The path built from directory, target and rest folds to what the reference restarts with; a target outside the export is refused exactly when the reference refuses it |
| `LookupWalker.Walk.StartOver` | fs-nfs/src/main/cpp/libnfs/lib/nfs_v3.c:237-249 | The new path is normalised in place and resolved from the root |
| `LookupWalker.Walk.Deliver` | fs-nfs/src/main/cpp/libnfs/lib/nfs_v3.c:159-459 | Every reply ends the walk or brings the pair of links left and names left lexicographically down |
| `LookupWalker.Walk.Drive` | fs-nfs/src/main/cpp/libnfs/lib/nfs_v3.c:159-567 | Every walk ends, whatever the server says |
| `LookupWalker.Walk.Start` | fs-nfs/src/main/cpp/libnfs/lib/nfs_v3.c:461-567 | The walk is refused exactly when the path cannot be normalised or the first RPC cannot be sent for the root |
| `LookupWalker.Walk.SelectExport` | fs-nfs/src/main/cpp/libnfs/lib/nfs_v3.c:510-544 | The loop over the nested mounts ends in the export and with the path that the reference selects, in a new buffer |
| `Resolver.SelectIs` | fs-nfs/src/main/cpp/libnfs/lib/nfs_v3.c:510-544 | Which export a lookup starts in: the first in the list that the path lies in, unless what is left of the path lies in a later one that is not shorter; then it is a later one, and the path is cut at both |
| `Resolver.SelectIsLongest` | fs-nfs/src/main/cpp/libnfs/lib/nfs_v3.c:510-544 | A longest mount that the path lies in is chosen, with the path below it, or the root if there is none, exactly if the first in the list is a longest one and what is left of the path lies in no later one that is not shorter |
| `Resolver.WrongExport` | fs-nfs/src/main/cpp/libnfs/lib/nfs_v3.c:510-544 | Two lists of mounts for which it is not the longest match, which the code means to find |
| `Resolver.WithinIff` | fs-nfs/src/main/cpp/libnfs/lib/nfs_v3.c:515-540 | A path lies in a mount exactly if it is the mount or continues it with a slash |
| `Resolver.LinksBounded` | fs-nfs/src/main/cpp/libnfs/lib/nfs_v3.c:334-371 | At most MAX_LINK_COUNT links are read in one lookup, against any server, and none under O_NOFOLLOW |
| `Resolver.LinkCycle` | fs-nfs/src/main/cpp/libnfs/lib/nfs_v3.c:334-371 | The bound is attained: a cycle of links is read exactly that many times and ends in ELOOP |
| `Resolver.DirectoryOfLink` | fs-nfs/src/main/cpp/libnfs/lib/nfs_v3.c:213-236 | A relative target is resolved from the directory that holds the link |
| `Resolver.LinkRefusedIff` | fs-nfs/src/main/cpp/libnfs/lib/nfs_v3.c:334-349 | A link to be followed is refused at once exactly if the caller's number has the bit of O_NOFOLLOW or the links are used up |
| `Resolver.CallerRefuses` | fs-nfs/src/main/cpp/libnfs/lib/nfs_v3.c:335-340 | For each caller which numbers those are: besides opening, truncating to a length and changing or making a mode |
| `Lexical.DepartsIff` | fs-nfs/src/main/cpp/libnfs/lib/nfs_v3.c:187-248 | After a link the code goes on in the place where it is meant to, in the whole namespace of the mounted exports, exactly if the target is not absolute with names after it or in an export written with a final slash, not relative and met in a nested export, and does not lead into one |
| `Lexical.WalksAsMeant` | fs-nfs/src/main/cpp/libnfs/lib/nfs_v3.c:159-424 | A walk that meets no such link, and no link that it refuses without being asked to or inside the path, is the one that is meant, RPC by RPC |
| `Lexical.LookupAsMeant` | fs-nfs/src/main/cpp/libnfs/lib/nfs_v3.c:159-567 | So is a whole lookup that also begins in the right export |
| `Lexical.DropsNames` | fs-nfs/src/main/cpp/libnfs/lib/nfs_v3.c:189-212 | An absolute target loses the names after the link |
| `Lexical.RootExportMisses` | fs-nfs/src/main/cpp/libnfs/lib/nfs_v3.c:191-209 | In the export / the absolute target /x is not found |
| `Lexical.WrongExportAfterLink` | fs-nfs/src/main/cpp/libnfs/lib/nfs_v3.c:237-248 | A relative link in a nested export is taken for one in the root, and one that leads into a nested export ends up in the directory that the mount covers |
| `Lexical.RefusedWithoutAsking` | fs-nfs/src/main/cpp/libnfs/lib/nfs_v3.c:335-340 | The bit of O_NOFOLLOW refuses links inside the path, and at its end for callers that asked for nothing of the kind |
| `Resolver.AnswerIsReachable` | fs-nfs/src/main/cpp/libnfs/lib/nfs_v3.c:159-424 | In a fixed namespace a walk that succeeds ends where some link-free chain of lookups from its starting handle or from the root ends, and at a link only if the last component is not to be followed |
| `Resolver.LookupIsReachable` | fs-nfs/src/main/cpp/libnfs/lib/nfs_v3.c:159-567 | So does a whole lookup, from the root, whose attributes it may have asked for, or from a nested export |
| `XdrRoundTrip.RoundTrip` | fs-nfs/src/main/cpp/libnfs/lib/libnfs-zdr.c:167-508 | For every type built from the primitives (sections 4.1 to 4.5 and 4.9 to 4.19 of RFC 4506), decoding an encoding followed by anything gives the value back and stops where the encoding ends, exactly if every array in it has a word for each element in what is left; otherwise it fails |
| `XdrRoundTrip.PrefixFree` | fs-nfs/src/main/cpp/libnfs/lib/libnfs-zdr.c:167-508 | No encoding is a proper prefix of another and no two values share one, whatever the arrays hold |
| `XdrRoundTrip.SoundRoundTrip` | fs-nfs/src/main/cpp/libnfs/lib/libnfs-zdr.c:167-508 | Types in which every array element takes a word always round trip |
| `XdrRoundTrip.SoundIsGuarded` | fs-nfs/src/main/cpp/libnfs/lib/libnfs-zdr.c:469-478 | In such types the guard on array counts lets everything through |
| `XdrRoundTrip.GuardRejects` | fs-nfs/src/main/cpp/libnfs/lib/libnfs-zdr.c:469-478 | Two honest encodings that the guard rejects: an array of one empty structure at the end of a message, and an array that holds only this one |
| `XdrRoundTrip.EncodesToWords` | fs-nfs/src/main/cpp/libnfs/lib/libnfs-zdr.c:118-124 | Every encoding is a whole number of words (section 3 of RFC 4506) |
| `XdrRoundTrip.AllowedWithoutMemory` | fs-nfs/src/main/cpp/libnfs/lib/libnfs-zdr.c:235-241 | Whatever the decoder takes the encoder may send |
| `WireForm.Numbers` | fs-nfs/src/main/cpp/libnfs/lib/libnfs-zdr.c:167-222 | The bytes of a word and of a hyper spell its value in base 256, most significant first (sections 4.1 and 4.5 of RFC 4506) |
| `WireForm.EncodingsAreOrdered` | fs-nfs/src/main/cpp/libnfs/lib/libnfs-zdr.c:167-222 | One number is less than another exactly if its bytes are lexicographically smaller |
| `WireForm.Counted` | fs-nfs/src/main/cpp/libnfs/lib/libnfs-zdr.c:243-312 | Counted data and strings are the count in four bytes, the payload, and zeroes up to a whole word |
| `WireForm.Fixed` | fs-nfs/src/main/cpp/libnfs/lib/libnfs-zdr.c:360-393 | Fixed opaque data is the payload and zeroes up to a whole word |
| `WireForm.Presence` | fs-nfs/src/main/cpp/libnfs/lib/libnfs-zdr.c:336-358 | Absent optional data is the word 0, present data the word 1 and then the data |
| `WireForm.TagThenArm` | fs-nfs/src/main/cpp/libnfs/nfs/libnfs-raw-nfs.c:364-381 | A union is its tag in four bytes and then what the first arm with that tag, or else the default arm, says |
| `WireForm.Members` | fs-nfs/src/main/cpp/libnfs/lib/libnfs-zdr.c:448-508 | Structures and vectors are the encodings of their members in order, and arrays the count in four bytes and then those |
| `WireForm.FixedTaken` | fs-nfs/src/main/cpp/libnfs/lib/libnfs-zdr.c:167-393 | Which bytes a decoder takes for a word, a hyper or fixed data, and for what value |
| `WireForm.BytesTaken` | fs-nfs/src/main/cpp/libnfs/lib/libnfs-zdr.c:243-312 | Counted data is taken exactly if its count is within the limit given, 2^30 and the bytes that follow, and is then those bytes |
| `WireForm.StringTaken` | fs-nfs/src/main/cpp/libnfs/lib/libnfs-zdr.c:395-446 | Strings likewise, but the bound of 2^30 only holds for those that have to be copied |
| `WireForm.CountTaken` | fs-nfs/src/main/cpp/libnfs/lib/libnfs-zdr.c:461-508 | An array is taken exactly if its count is within the limit given, a quarter of the bytes that follow and 2^30 bytes of memory, and its elements are taken |
| `WireForm.TagTaken` | fs-nfs/src/main/cpp/libnfs/nfs/libnfs-raw-nfs.c:364-381 | A union is taken as the arm its tag selects says; a tag without an arm is an error |
| `WireForm.AnyFlag` | fs-nfs/src/main/cpp/libnfs/lib/libnfs-zdr.c:336-358 | Every word but 0 says that optional data follows |
| `Zdr.Zdr.Proc` | fs-nfs/src/main/cpp/libnfs/lib/libnfs-zdr.c:167-508 | For every type and every buffer content: encoding appends exactly the encoding if it fits and is allowed, decoding gives exactly what the reference decoder gives; the position stays in the buffer, never moves back, and no byte outside old and new position changes; it ends on arbitrary input because each optional takes bytes |
| `Zdr.Zdr.UInt` | fs-nfs/src/main/cpp/libnfs/lib/libnfs-zdr.c:167-192 | Four bytes, of which the first counts 2^24, the second 2^16, the third 2^8 and the last 1, in either direction, or failure with nothing moved exactly if they do not fit |
| `Zdr.Zdr.UInt64` | fs-nfs/src/main/cpp/libnfs/lib/libnfs-zdr.c:199-222 | Eight bytes as two words |
| `Zdr.Zdr.Bytes` | fs-nfs/src/main/cpp/libnfs/lib/libnfs-zdr.c:243-312 | Counted bytes with padding within both limits; into caller storage only what fits |
| `Zdr.Zdr.Opaque` | fs-nfs/src/main/cpp/libnfs/lib/libnfs-zdr.c:360-393 | Fixed bytes with padding that may be cut off at the end of the buffer |
| `Zdr.Zdr.String` | fs-nfs/src/main/cpp/libnfs/lib/libnfs-zdr.c:395-446 | Both ways of returning a string, in place and copied, give the reference's result |
| `Zdr.Zdr.Counted` | fs-nfs/src/main/cpp/libnfs/lib/libnfs-zdr.c:448-496 | An array: count, guard, elements |
| `Zdr.Zdr.CountAccepted` | fs-nfs/src/main/cpp/libnfs/lib/libnfs-zdr.c:461-488 | The checks between count and elements accept exactly the counts whose size in memory does not wrap and, when decoding, that the limit, the bytes left and the memory allow |
| `Zdr.Zdr.Items` | fs-nfs/src/main/cpp/libnfs/lib/libnfs-zdr.c:490-508 | The element loop of arrays and vectors |
| `Zdr.Zdr.Optional` | fs-nfs/src/main/cpp/libnfs/lib/libnfs-zdr.c:336-358 | An optional: a flag word, then the target, recursively |
| `Zdr.SendAndReceive` | fs-nfs/src/main/cpp/libnfs/lib/libnfs-zdr.c:118-508 | Through one buffer: what is encoded is decoded, exactly if it fits and the guard on array counts lets it, and the rest of the buffer is untouched |
| `RpcMessage.HeaderRoundTrip` | fs-nfs/src/main/cpp/libnfs/lib/libnfs-zdr.c:514-788 | Call and reply headers decode to the header sent, to no other, and leave the payload (section 9 of RFC 5531), exactly if the guard on array counts lets the results through |
| `RpcMessage.ToValueInjective` | fs-nfs/src/main/cpp/libnfs/lib/libnfs-zdr.c:514-788 | Different headers are different values |
| `RpcMessage.GoodMessage` | fs-nfs/src/main/cpp/libnfs/lib/libnfs-zdr.c:514-788 | Headers with credentials of at most the size limit are within every limit of the codec |
| `RpcMessage.GuardedMessage` | fs-nfs/src/main/cpp/libnfs/lib/libnfs-zdr.c:514-788 | The guard never stops a header, only its results |
| `RpcMessage.CallBytes` | fs-nfs/src/main/cpp/libnfs/lib/libnfs-zdr.c:514-608 | A call word by word: xid, 0, RPC version, program, version, procedure, credential, verifier (section 9 of RFC 5531) |
| `RpcMessage.ReplyBytes` | fs-nfs/src/main/cpp/libnfs/lib/libnfs-zdr.c:618-788 | Each kind of reply word by word: xid, 1, accepted or denied, and what follows |
| `Nfs3Results.ReplyRoundTrip` | fs-nfs/src/main/cpp/libnfs/nfs/libnfs-raw-nfs.c:363-381 | Replies with LOOKUP and READDIR results, a listing of any length included, are understood as they were sent |
| `Nfs3Results.FailuresCarryAttributes` | fs-nfs/src/main/cpp/libnfs/nfs/libnfs-raw-nfs.c:354-381 | The default arm of a result has a body |
| `Nfs3Results.LookupBytes` | fs-nfs/src/main/cpp/libnfs/nfs/libnfs-raw-nfs.c:343-381 | A successful LOOKUP: status 0, the handle, the attributes of what was found and of the directory |
| `Nfs3Results.EntryBytes` | fs-nfs/src/main/cpp/libnfs/nfs/libnfs-raw-nfs.c:1604-1651 | An entry of a listing: the flag 1, file number, name, cookie, and the rest of the list; 0 at its end |
| `AuthSys.AuthUnixCreate` | fs-nfs/src/main/cpp/libnfs/lib/libnfs-zdr.c:809-851 | The credential has flavour 1 and fills exactly the length it announces with stamp, host name, uid, gid, the number of groups and the groups, word by word, which is the encoding of authsys_parms (Appendix A of RFC 5531); more than 16 groups are refused |
| `AuthSys.CredentialRoundTrip` | fs-nfs/src/main/cpp/libnfs/lib/libnfs-zdr.c:809-851 | The credential decodes to the same host, uid, gid and groups exactly if the host name has at most 255 bytes, which the code does not check |
| `AuthSys.ParmsEncode` | fs-nfs/src/main/cpp/libnfs/lib/libnfs-zdr.c:809-851 | What is written word by word is what the codec encodes |
| `TrashMoves.NoClobber` | app/src/main/cpp/trash.c:29-68 | After every interleaving of any number of movers and of outsiders who create names, hard links included, whether or not a source exists at the start: nothing that stood at a name that is no source is displaced; every source entry is at exactly one of its two names; success means moved to a name that was free at the start, for one mover per destination; failure keeps the source and leaves a reservation only if a call on it failed |
| `TrashMoves.NothingDisplaced` | app/src/main/cpp/trash.c:15-68 | From any reachable state on, an object of an outsider stays where it is |
| `TrashMoves.StepKeeps` | app/src/main/cpp/trash.c:15-68 | No single call displaces an object other than the mover's own source and reservation |
| `TrashMoves.StepInv` | app/src/main/cpp/trash.c:15-68 | Every step of every mover and creator preserves the invariant |
| `TrashMoves.RunInv` | app/src/main/cpp/trash.c:15-68 | So does every run |
| `TrashMoves.ErrorsAreOwn` | app/src/main/cpp/trash.c:34-68 | A mover returns only an error that one of its own calls gave |
| `TrashMoves.Bounded` | app/src/main/cpp/trash.c:34-68 | A mover finishes within eight of its own calls, whatever the others do |
| `TrashMoves.OnlyAfterALook` | app/src/main/cpp/trash.c:52-66 | In any state, even with the reservation replaced from outside, a mover renames over its destination or removes it exactly after a look that shows the inode of its own reservation; another inode makes it fail, with EEXIST before the rename |
| `MoveOutcomes.EndsAsItsCalls` | app/src/main/cpp/trash.c:34-68 | After every interleaving, on the errnos of the mover's own calls: it has finished with 0, its source at the destination, exactly if its first call succeeded, or failed with 22, 38 or 95 and the five after it succeeded; any other first errno is the result at once; and with which other sequences of errnos it has failed, and with what error |
| `MoveOutcomes.CanMove` | app/src/main/cpp/trash.c:15-68 | With the source there and the destination free a move can succeed either way, and then moves that entry and nothing else |
| `MoveNoReplace.System.MoveNoReplace` | app/src/main/cpp/trash.c:34-68 | The function itself, between arbitrary steps of others: 0 only with the source at a destination that was free, an error only with the source in place; and 0 exactly if the first call succeeded, or failed with 22, 38 or 95 and the five after it succeeded |
| `MoveNoReplace.System.Others` | app/src/main/cpp/trash.c:29-33 | Any number of any events but the calls of this mover, which leave its variables and the objects of outsiders alone |
| `MoveNoReplace.System.SystemCall` | app/src/main/cpp/trash.c:34-68 | One call, after anything that others do, is one step of the protocol |
| `MoveNoReplace.System.MoveReserving` | app/src/main/cpp/trash.c:38-67 | The way without rename flags follows the program counter of the protocol call by call |
| `MoveNoReplace.System.CleanUp` | app/src/main/cpp/trash.c:59-67 | Afterwards the reservation is gone, or a call on it failed; the source is in place and nothing of others was displaced |
| `Cursor.Cursor.Memcpy` | fs-nfs/src/main/cpp/libnfs/lib/init.c:939-968 | Writes the k-th byte to the k-th address of the flattened segments, nothing else, and drops that prefix |
| `Cursor.Cursor.Advance` | fs-nfs/src/main/cpp/libnfs/lib/init.c:871-898 | Drops exactly a prefix of the flattened addresses |
| `Cursor.Cursor.Shrink` | fs-nfs/src/main/cpp/libnfs/lib/init.c:904-933 | Keeps exactly a prefix of the flattened addresses |
| `Cursor.Cursor.Reset` | fs-nfs/src/main/cpp/libnfs/lib/init.c:970-991 | Restores the original segments, whatever was done |
| `Cursor.Cursor.CountsAgree` | fs-nfs/src/main/cpp/libnfs/lib/init.c:871-968 | The assertion in each operation: no segments left exactly if no bytes are left |
| `Cursor.Perform` | fs-nfs/src/main/cpp/libnfs/lib/init.c:871-968 | Any run of operations leaves the memory and the addresses still to be written that are computed from addresses alone |
| `Cursor.ResultIs` | fs-nfs/src/main/cpp/libnfs/lib/init.c:871-968 | What one operation in front of others changes: advancing drops addresses, shrinking keeps the first ones, copying writes to them |
| `Cursor.PerformAndReset` | fs-nfs/src/main/cpp/libnfs/lib/init.c:871-991 | Any run of operations leaves the memory computed from addresses alone, and after a reset the cursor as it was made |
| `Cursor.ChunkingDoesNotMatter` | fs-nfs/src/main/cpp/libnfs/lib/init.c:939-968 | However a stream is cut into chunks, memory and cursor end up as after one copy |
| `Cursor.OnlyItsAddresses` | fs-nfs/src/main/cpp/libnfs/lib/init.c:871-968 | Memory changes only at the addresses of the cursor |
| `Cursor.AdvanceSkips` | fs-nfs/src/main/cpp/libnfs/lib/init.c:871-898 | What was advanced over is never written |
| `Cursor.ShrinkBounds` | fs-nfs/src/main/cpp/libnfs/lib/init.c:904-933 | After a shrink to n bytes no byte past the n-th is ever written |
| `Cursor.WrittenAt` | fs-nfs/src/main/cpp/libnfs/lib/init.c:939-968 | Where segments are disjoint each byte ends up at its own address |
| `SplitWrite.WriteCall.Mcb` | fs-nfs/src/main/cpp/libnfs/lib/nfs_v3.c:4285-4384 | Each reply either leads to a WRITE of exactly the rest, which is sent whenever something, but not all, was taken, or to the one callback: with the full count and everything stored if the last WRITE took all of it, and otherwise with the status that the last reply calls for and a prefix stored |
| `SplitWrite.Nfs3Pwrite` | fs-nfs/src/main/cpp/libnfs/lib/nfs_v3.c:4285-4467 | A chunk is stored in full if the server takes something of every WRITE, each of which is of what the one before left over; otherwise the last reply gives the status, in numbers, and a prefix is stored; the file offset moves only on success |
| `SplitWrite.RwData.WCb` | fs-nfs/src/main/cpp/libnfs/lib/libnfs.c:1867-1913 | The write goes on from where it got to, or ends with the number of bytes stored or an error |
| `SplitWrite.Pwrite` | fs-nfs/src/main/cpp/libnfs/lib/libnfs.c:1867-1956 | A write of any size stores exactly the buffer at the offset and returns its length if the server takes something of every WRITE, and only then unless the buffer is empty; otherwise the last reply gives the status: -14, -4, the error of the server, -12 for a WRITE that could not be sent or -1 if it was the first; then whole WRITEs are stored, the file offset is behind them, and a prefix of the rest is stored |
| `SplitWrite.PwriteSplit` | fs-nfs/src/main/cpp/libnfs/lib/libnfs.c:1867-1956 | The same for a request of more than one WRITE |
| `SplitWrite.NWrite` | fs-nfs/src/main/cpp/nfs_jni.c:159-177 | Stores every byte, or raises exactly if there was a WRITE of which the server took nothing; then a prefix is stored |
| `SplitWrite.StoreMeans` | fs-nfs/src/main/cpp/libnfs/lib/nfs_v3.c:4285-4467 | Storing changes exactly the bytes of its range |
| `SplitRead.Nfs3Pread` | fs-nfs/src/main/cpp/libnfs/lib/nfs_v3.c:4517-4600 | One READ gives a piece of the file from the offset, at most what was asked, and as many bytes as its reply says; an error only if the reply is one, with its number; the file offset moves by exactly what was read |
| `SplitRead.ReadData.RCb` | fs-nfs/src/main/cpp/libnfs/lib/libnfs.c:1690-1729 | Goes on only after a full READ, with less left; otherwise ends with what was read |
| `SplitRead.Pread` | fs-nfs/src/main/cpp/libnfs/lib/libnfs.c:1690-1793 | A split read gives a contiguous piece of the file, all that was asked for and exists if no READ is cut short before the end, and moves the offset by exactly that; it fails exactly if the last READ was not answered Ok, with the status its reply calls for, all READs before it being answered in full; then the buffer begins with what whole READs gave, and the offset is behind it |
| `SList.List.Add` | fs-nfs/src/main/cpp/libnfs/include/slist.h:21-25 | Puts the item in front of the list, which stays acyclic |
| `SList.List.AddEnd` | fs-nfs/src/main/cpp/libnfs/include/slist.h:27-37 | Puts the item at the end of the list; the head used as a cursor is put back |
| `SList.List.Remove` | fs-nfs/src/main/cpp/libnfs/include/slist.h:39-50 | Takes the item out; without it in the list nothing changes |
| `SList.WithoutAt` | fs-nfs/src/main/cpp/libnfs/include/slist.h:39-50 | What the list is without its i-th item |
| `DirCache.Cache.Add` | fs-nfs/src/main/cpp/libnfs/lib/libnfs.c:117-140 | The newest listing goes in front and only the oldest is given up; at most 129 stay |
| `DirCache.Cache.Find` | fs-nfs/src/main/cpp/libnfs/lib/libnfs.c:142-166 | Takes out the first listing of the handle, or changes nothing |
| `DirCache.Cache.Drop` | fs-nfs/src/main/cpp/libnfs/lib/libnfs.c:168-177 | Forgets the first listing of the handle and no other |
| `DirCache.Cache.OpenCached` | fs-nfs/src/main/cpp/libnfs/lib/nfs_v3.c:3115-3137 | Serves the first cached listing of the handle exactly if its seconds and nanoseconds are those reported; it leaves the cache either way |
| `DirCache.FoundAt` | fs-nfs/src/main/cpp/libnfs/lib/libnfs.c:142-166 | Finding yields the first match and the rest in order |
| `DirCache.ServedIsCurrent` | fs-nfs/src/main/cpp/libnfs/lib/nfs_v3.c:2767-3137 | Of directories that change while they are read, in entries with their modification time and in the attributes of entries at any time: a listing served to a lookup that reports the present modification time holds exactly the present entries, if the directory had that time already when the enumeration that made the listing began |
| `DirCache.ServedWasEnumerated` | fs-nfs/src/main/cpp/libnfs/lib/nfs_v3.c:3115-3137 | After any run of opens, closes and changes the cache is bounded, and a listing served, whatever the lookup reports, was enumerated by a certain open of the same directory in that run, with the entries, the attributes sent and the modification time it has |
| `DirCache.NoTimeIsServed` | fs-nfs/src/main/cpp/libnfs/lib/nfs_v3.c:3115-3137 | Where a server sends no attributes of directories, an old listing is served whatever has happened since |
| `DirCache.OldSizesAreServed` | fs-nfs/src/main/cpp/libnfs/lib/nfs_v3.c:3115-3137 | A listing served shows the sizes of when it was enumerated |
| `DirCache.MixedIsServed` | fs-nfs/src/main/cpp/libnfs/lib/nfs_v3.c:2877-2878 | A directory that changes between two pages is cached under its new time with its old first page, and served so |
| `ChangingDir.ListsIfUnchanged` | fs-nfs/src/main/cpp/libnfs/lib/nfs_v3.c:2767-3113 | A listing kept under the modification time that the directory had at the first page has every entry of that time, once, last first, whatever happens to the attributes of entries |
| `ChangingDir.ListsExactly` | fs-nfs/src/main/cpp/libnfs/lib/nfs_v3.c:2767-3113 | With their attributes up to where READDIRPLUS was given up, where those do not change either |
| `ChangingDir.GrowingIsClocked` | fs-nfs/src/main/cpp/libnfs/lib/nfs_v3.c:2767-3113 | That a file grows is no change to its directory |
| `ChangingDir.EndTime` | fs-nfs/src/main/cpp/libnfs/lib/nfs_v3.c:2877-2878 | The modification time kept is that of the last page, the one with the end in it, or none if that page has no attributes |
| `ChangingDir.MixedPages` | fs-nfs/src/main/cpp/libnfs/lib/nfs_v3.c:2767-3113 | A scan of two pages that gives what the directory was at no time |
| `DirCache.StaleAfterChange` | fs-nfs/src/main/cpp/libnfs/lib/libnfs.c:168-177 | A listing from before a change is in the cache at some time after it exactly if the cache held two at the change, or one held open across the change is closed afterwards |
| `DirCache.ClosedAfterChange` | fs-nfs/src/main/cpp/libnfs/lib/libnfs.c:2340-2348 | A directory opened before a change and closed after it comes back into the cache as it was |
| `Client.OpenDirectory` | fs-nfs/src/main/cpp/libnfs/lib/nfs_v3.c:3115-3165 | Opening through the cache is the step of the runs above: the first cached listing if it has the time reported, and otherwise a new enumeration, which succeeds exactly if the scan does and no LOOKUP is lost, with the attributes that each LOOKUP brought |
| `Client.Enumerate` | fs-nfs/src/main/cpp/libnfs/lib/nfs_v3.c:2624-3113 | The enumeration is the scan of the server from the next RPC on, kept under its modification time, exactly if the scan succeeds and no LOOKUP was lost |
| `DirCache.ChangeForgets` | fs-nfs/src/main/cpp/libnfs/lib/libnfs.c:168-177 | A change leaves no listing of a directory exactly if the cache did not hold two of it |
| `DirCache.ChangeMayNotForget` | fs-nfs/src/main/cpp/libnfs/lib/libnfs.c:168-177 | A directory opened twice and closed twice is held twice, and a change then leaves the older listing |
| `OpenDir.OpenDir.PlusReply` | fs-nfs/src/main/cpp/libnfs/lib/nfs_v3.c:2893-3113 | The reply to READDIRPLUS pushes the entries of its page and sends what the reference sends, or falls back to READDIR, or ends as the reference does, with the modification time of the last page |
| `OpenDir.OpenDir.PlainReply` | fs-nfs/src/main/cpp/libnfs/lib/nfs_v3.c:2767-2891 | The same for the reply to READDIR |
| `OpenDir.OpenDir.ScanDir` | fs-nfs/src/main/cpp/libnfs/lib/nfs_v3.c:2767-3113 | The linked list and the requests of a whole scan are those of the reference |
| `OpenDir.OpenDir.LookUpMissing` | fs-nfs/src/main/cpp/libnfs/lib/nfs_v3.c:2711-2765 | Sends a LOOKUP for exactly the entries without attributes; the count is the number in flight |
| `OpenDir.OpenDir.LookupDone` | fs-nfs/src/main/cpp/libnfs/lib/nfs_v3.c:2624-2709 | A reply, whichever comes next, fills in its own entry with the attributes it brought, if any, notes a loss, and calls the caller back exactly if it is the last, with -12 after a loss |
| `OpenDir.OpenDir.Open` | fs-nfs/src/main/cpp/libnfs/lib/nfs_v3.c:2624-3113 | One callback for any failed sends and any order of replies: the error of the scan, or every entry with the attributes its own LOOKUP brought where it had none, or -12 exactly if the LOOKUP of such an entry was lost, cancelled or late |
| `OpenDir.OpenDir.Items` | fs-nfs/src/main/cpp/libnfs/lib/libnfs.c:2298-2309 | Reading the open directory entry by entry gives the list |
| `OpenDir.OpenDir.OpenServed` | fs-nfs/src/main/cpp/libnfs/lib/nfs_v3.c:2624-3113 | Opening a directory that a server pages: the linked list holds every entry once, last first, with the attributes the server, the nested mounts or its own LOOKUP gave, and the callback reports it, except on a late fallback |
| `Readdir.OpensWhole` | fs-nfs/src/main/cpp/libnfs/lib/nfs_v3.c:2767-3113 | A server that pages a fixed directory with distinct non-zero cookies is listed in full, attributes included up to where it falls back, in at most one request per entry and two more; a server that checks cookie verifiers and drops READDIRPLUS in mid-directory makes the open fail with EIO, and nothing else does |
| `Readdir.OpensNames` | fs-nfs/src/main/cpp/libnfs/lib/nfs_v3.c:2767-3113 | The same for the names alone, where attributes come and go and change |
| `Readdir.RunAlike` | fs-nfs/src/main/cpp/libnfs/lib/nfs_v3.c:2767-3113 | Attributes of entries have no influence on a scan but in the attributes of its items |
| `Readdir.Enumerates` | fs-nfs/src/main/cpp/libnfs/lib/nfs_v3.c:2767-3113 | The same from any point of the scan: each entry exactly once, in reverse order |
| `Readdir.NeverRepeats` | fs-nfs/src/main/cpp/libnfs/lib/nfs_v3.c:2835-2872 | Against any server two requests in a row differ in cookie, or the second falls back to READDIR, for good |
| `Readdir.NothingLost` | fs-nfs/src/main/cpp/libnfs/lib/nfs_v3.c:2804-2833 | Against any server the list holds every entry received, each once, last first, with the attributes of its page or of a nested mount |
| `Readdir.ScanGoesBy` | fs-nfs/src/main/cpp/libnfs/lib/nfs_v3.c:2767-3113 | A whole scan, from the replies and in numbers: READDIRPLUS from the start; each page that is not the last leads to the next request at its last cookie, with its verifier, and a lack of support to READDIR at the same cookie; the last reply decides the end: -12, -14, -4, -22, the error of the server, -5 for a cookie that does not move, or success at the end of the directory, with the modification time of that page |
| `Readdir.ItemShows` | fs-nfs/src/main/cpp/libnfs/lib/nfs_v3.c:2893-3008 | An item has the name and file number of its entry and the attributes sent with it; sent without any, those of the first nested mount whose path is its own |
| `Readdir.MayNotEnd` | fs-nfs/src/main/cpp/libnfs/lib/nfs_v3.c:2835-2845 | A server that alternates two cookies keeps the scan going for ever |
| `Readdir.EndsIff` | fs-nfs/src/main/cpp/libnfs/lib/nfs_v3.c:2835-2872 | A scan of a server whose answers depend on the request alone ends if and only if no request is sent twice, and then within as many replies as there are requests |
| `Readdir.GoesOnForEver` | fs-nfs/src/main/cpp/libnfs/lib/nfs_v3.c:2835-2872 | Once such a scan repeats a request it never ends |
| `Readdir.SameNext` | fs-nfs/src/main/cpp/libnfs/lib/nfs_v3.c:2767-3113 | What a scan does next depends on its request and the reply alone |
| `Readdir.MountMatchesIff` | fs-nfs/src/main/cpp/libnfs/lib/nfs_v3.c:2987-3008 | A nested mount lends its attributes to an entry exactly if its path is that of the entry |
| `FanOut.Mounting.Discover` | fs-nfs/src/main/cpp/libnfs/lib/nfs_v3.c:917-1031 | One MOUNT for each nested export that could be sent, counted by a live counter; if none is in flight the mount goes on at once; an empty export is an error |
| `FanOut.Mounting.Consider` | fs-nfs/src/main/cpp/libnfs/lib/nfs_v3.c:943-1002 | One export: the counter exists exactly while a request is in flight, and is freed where its first cannot be sent |
| `FanOut.Mounting.MountReply` | fs-nfs/src/main/cpp/libnfs/lib/nfs_v3.c:799-915 | A reply, whichever comes next, is recorded, and the last one concludes and frees the counter |
| `FanOut.Mounting.Run` | fs-nfs/src/main/cpp/libnfs/lib/nfs_v3.c:799-1031 | For any exports, any failed sends and any order of replies exactly one callback or continuation follows, the verdict on the replies, and each answered MOUNT is listed with its own path and handle |
| `FanOut.MountGoesOnIff` | fs-nfs/src/main/cpp/libnfs/lib/nfs_v3.c:799-915 | The mount goes on exactly if no MOUNT was refused or failed and every cancellation was followed by a timeout |
| `FanOut.VerdictIs` | fs-nfs/src/main/cpp/libnfs/lib/nfs_v3.c:799-915 | The whole verdict, from the replies and in numbers: -4 exactly if a cancellation is followed by no timeout, else the last error, -14 for one in transit, else the mount goes on, or ends with -12 if the connection cannot be started |
| `FanOut.AddedIs` | fs-nfs/src/main/cpp/libnfs/lib/nfs_v3.c:840-862 | Every answered MOUNT is listed once, with its own path and handle, the last one first, and nothing else is |
| `FanOut.InterruptedIff` | fs-nfs/src/main/cpp/libnfs/lib/nfs_v3.c:812-879 | The interruption reported is decided by the last reply that was cancelled or timed out |
| `FanOut.LastErrorAt` | fs-nfs/src/main/cpp/libnfs/lib/nfs_v3.c:812-886 | The error reported is that of the last reply that is one |
| `FanOut.OrderDecides` | fs-nfs/src/main/cpp/libnfs/lib/nfs_v3.c:812-886 | Two orders of the same replies, one ending the mount and the other not |
| `FanOut.OrderIsIrrelevant` | fs-nfs/src/main/cpp/libnfs/lib/nfs_v3.c:799-915 | Without timeouts the order does not matter |
| `FanOut.NestedIff` | fs-nfs/src/main/cpp/libnfs/lib/nfs_v3.c:943-968 | Which exports are nested, and that their path continues the mounted export; that one is itself nested exactly if written with a final slash |
| `FanOut.SentIff` | fs-nfs/src/main/cpp/libnfs/lib/nfs_v3.c:943-1002 | A MOUNT is sent exactly for the exports below the mounted one, and asks for the path below it, unless it cannot be sent |
| `FanOut.AttrFetch.Issue` | fs-nfs/src/main/cpp/libnfs/lib/nfs_v3.c:603-682 | One GETATTR for each nested mount that could be sent, counted; none in flight calls back at once |
| `FanOut.AttrFetch.AttrReply` | fs-nfs/src/main/cpp/libnfs/lib/nfs_v3.c:569-601 | A reply fills in its own mount; the last one calls back |
| `FanOut.AttrFetch.Run` | fs-nfs/src/main/cpp/libnfs/lib/nfs_v3.c:569-682 | For any failures and any order one callback, with success, and each mount has exactly the attributes of its own reply |
| `Purge.Rpc.PurgeAll` | fs-nfs/src/main/cpp/libnfs/lib/init.c:488-576 | Every PDU of the out queue, the delay queue and all buckets is called back, if it has a callback, and then freed, in order; queues and counts end up empty |
| `Purge.ExactlyOnce` | fs-nfs/src/main/cpp/libnfs/lib/init.c:534-573 | Each queued PDU is freed once, called back once if it has a callback and never otherwise, and called back before it is freed |
| `Purge.Rpc.Splice` | fs-nfs/src/main/cpp/libnfs/lib/init.c:508-518 | The delay queue is linked behind the out queue |
| `Purge.Rpc.Drain` | fs-nfs/src/main/cpp/libnfs/lib/init.c:534-541 | Calls back and then frees the PDUs of a queue in order, reading none after it is freed |
| `Fragments.Reassembly.Add` | fs-nfs/src/main/cpp/libnfs/lib/init.c:604-625 | The fragments, in order, hold the data received so far, and the size is its length |
| `Fragments.Reassembly.FreeAll` | fs-nfs/src/main/cpp/libnfs/lib/init.c:591-602 | Every fragment is freed once, in order, and none is read afterwards |
| `Fragments.DataSeq` | fs-nfs/src/main/cpp/libnfs/lib/init.c:604-625 | The data of fragments appended is the data appended |
| `Rename.Rename` | fs-nfs/src/main/cpp/libnfs/lib/nfs_v3.c:1477-1643 | Accepted exactly if the lookup of the first directory is. For the one way to cut each path at its last slash: the directory of the first is looked up, then that of the second, each is dropped from the cache when found, and the one RENAME is for the first name in the first handle found and for the second name in the second. The callback gets 0 exactly if it is answered, -14, -4, the error of the server or -12 if it is not, the status of the lookup that failed, or -12 if the second is refused. The names sent are the last components of the two paths |
| `Rename.FromFound` | fs-nfs/src/main/cpp/libnfs/lib/nfs_v3.c:1511-1571 | The second lookup and the RENAME, with a callback on every way out; what is sent has the given directory and name first, and then the handle of the second lookup with the name in it |
| `Rename.TakeApart` | fs-nfs/src/main/cpp/libnfs/lib/nfs_v3.c:1589-1632 | A path is cut at its last slash, in place in a copy |
| `Rename.ParentIsRight` | fs-nfs/src/main/cpp/libnfs/lib/nfs_v3.c:1574-1643 | The directory looked up is what is in front of the last slash, except exactly for a path whose only slash is its first character when the current directory is not the root |
| `Rename.RenamesTheLast` | fs-nfs/src/main/cpp/libnfs/lib/nfs_v3.c:1574-1643 | A path is renamed as its last component in the directory of the others exactly if it ends in a name and is not such a path |
| `Rename.FinalSlashIsNoName` | fs-nfs/src/main/cpp/libnfs/lib/nfs_v3.c:1574-1643 | For /d/ the empty name is renamed in /d |
| `Rename.RootMeansCurrent` | fs-nfs/src/main/cpp/libnfs/lib/nfs_v3.c:1574-1643 | An example of that exception: with the current directory /a the path /x is looked for in /a |
| `Unescape.UnescapeInPlace` | fs-nfs/src/main/cpp/libnfs/lib/libnfs.c:452-474 | The buffer ends up with the one-pass decoding and a terminator; with a buffer just long enough nothing past the terminator is read |
| `Unescape.DecodeEncode` | fs-nfs/src/main/cpp/libnfs/lib/libnfs.c:452-474 | Decoding undoes every percent-encoding, whatever is escaped and in either case (section 2.1 of RFC 3986) |
| `Unescape.DecodeIs` | fs-nfs/src/main/cpp/libnfs/lib/libnfs.c:413-474 | A percent sign and two digits stand for the byte of that value, the first digit counting sixteen; every other character stands for itself |
| `Unescape.DecodeFixed` | fs-nfs/src/main/cpp/libnfs/lib/libnfs.c:452-474 | A string is its own decoding exactly if it holds no escape, so malformed ones stay |
| `Unescape.DecodedIsNotRescanned` | fs-nfs/src/main/cpp/libnfs/lib/libnfs.c:452-474 | A decoded percent sign starts no escape |
| `Unescape.SeenAsString` | fs-nfs/src/main/cpp/libnfs/lib/libnfs.c:452-474 | The C string seen afterwards is the whole decoding exactly if no escape stands for the terminator |
| `Unescape.ToHex` | fs-nfs/src/main/cpp/libnfs/lib/libnfs.c:413-424 | The value of a hexadecimal digit of either case, and -1 for every other byte |

## Left out

- Physical resolution of "..": the code takes it by the text of the path, and so do both the model and what is meant in `Lexical`; "l/../x" behind a link l is x beside l.
- Sockets, reconnects, timers, TLS, Kerberos, threads and locks: an RPC is one request and one reply.
- Pointers into the receive buffer: a decoded string or byte field is modelled by its contents, not by its aliasing of the buffer, which the caller may overwrite.
- `libnfs_zdr_destroy` and the memory list of a decoder.
- The wrapped call bodies of RPCSEC_GSS in the message headers.
- Zero-length segments in a cursor: every segment is taken to have a byte, as the assertions on counts do.
- The other operations that look a parent directory up (create, unlink, mkdir, symlink, link): they repeat the pattern of renaming.
- The other attributes of a directory entry, and the mode bits derived from its kind: only kind and size are modelled.
- Releasing the counter of `lookup_missing_attributes` when every LOOKUP fails to be sent: the code leaks it, and no claim is made about it.
- The file names in the trash model form a flat space; a directory is an object like a file, and its contents move with it.
- Removing or replacing another mover's reservation from outside: excluded by the comment in the source, and by the model.
- JNI: array regions, exceptions and handles; `nWrite` is its loop.
- NFSv4, zstd, SMB, the terminal and the scripts.
- The iteration over the entries of a listing in `zdr_entry3`, written by hand in place of the recursion through an optional: the codec has the recursion.
- Readdir.EndsIff: says nothing of servers that answer the same request differently later on; they can end a scan, or not, at any time.
- Unescape.UnescapeInPlace: parsing the unescaped URL into server, path and arguments is not part of this model.
