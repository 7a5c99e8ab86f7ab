# OpenSSL command-line tools and Open Web Server: a Dafny model

The repository is a small directory-browsing web server together with the OpenSSL 1.1.0g
sources it links to. This project models the parts of it that keep state or transform text by
hand-written loops, and proves what those parts are for:

* **rehash** (`RehashIds`, `RehashTable`, `RehashHeap`, `RehashListing`, `RehashOverrun`): the
  chained table of certificates and links that share a hash, what it holds after a directory has
  been read, and the allocator that numbers the links. Lookup by hash probes 0, 1, 2, ... until a
  name is missing, so the numbers of the needed entries must be gap-free.
* **ca** (`CaPolicy`, `CaSerial`, `CaRevocation`, `CaReasons`, `CaExpiry`, `CaDatabaseSpec`,
  `CaRevoking`, `CaDatabase`, `CaRotate`, `CaCommit`): the subject policy, the text database and its
  runs, revocation strings, expiry, and the commit by renaming with its hand-written rollback.
* **Text codecs** (`ParseName`, `TextCodecs`): distinguished names, protocol lists and
  percent-decoding, each a pointer loop shown equal to a grammar and inverse to its printer.
* **cms** (`CmsOptions`, `CmsPairing`): how `-signer`, `-inkey` and `-keyopt` in any order become pairs.
* **Web server** (`PollTable`, `WebServer`): the descriptor table, the round-robin dispatch and
  the links of a directory listing.

Code that updates things in place is a class or a method over an array with loop invariants,
proved against a function; the laws are lemmas about that function. Strings are C strings
without their terminator. Library calls whose code is outside the scope (object identifiers,
ASN.1 time checks, hashes, attribute checks) are function parameters, so every result holds for
all of their possible behaviours.

Some expectations are false of the code as it is; each has a concrete witness and an exact condition:

* Link numbers are gap-free if and only if the bucket is *tight* (`RehashIds.GapFreeIffTight`); a
  stale link breaks it (`RehashSpec.StaleLinkRun`).
* The bit mask of the allocator suffices if and only if the ids in use fit into the bytes that were
  cleared (`RehashIds.WithinIffSuffices`); stale links, or 257 links with their files, break it
  (`RehashOverrun.StaleLinksRun`, `RehashOverrun.ManyLinksRun`).
* A link that was made stays if and only if no superfluous link with an id that is reached by then
  comes later (`RehashIds.DeletesIffOvertaken`, `RehashIds.NewLinkDeleted`).
* The order in which a directory is read does not matter, except that of one certificate under
  two names the first is taken (`RehashListing.OutcomeOfReading`, `RehashListing.DuplicateKeepsFirst`).
* What a run leaves can be loaded again if and only if all recorded dates and clocks are readable
  (`CaDatabaseSpec.LoadableIff`, `CaDatabaseSpec.UnreadableDateRecorded`).
* A CRL is free of repeated serials if and only if no two revoked rows differ in spelling only
  (`CaDatabaseSpec.ListedOnce`); `0A` and `0a` pass the load checks and are listed twice
  (`CaDatabaseSpec.LowerCaseListedTwice`).
* A status query finds the row of a number if and only if that row is spelled in upper case
  (`CaSerial.QueryFinds`, `CaSerial.LowerCaseNeverFound`).
* A date with a four-digit year, or without seconds, is judged wrongly if and only if the clock lies
  between its instant and the one it is read as (`CaExpiry.WrongIffMisjudged`); so certificates that
  end in 2030, in 2050 or never are marked expired in 2024 (`CaExpiry.Expires2030`,
  `CaExpiry.Expires2050`, `CaExpiry.NoExpiryExpires`), and one without seconds is a minute late
  (`CaExpiry.ShortTimeLate`). On UTCTime dates the comparison is right.
* A failed rotation restores the live files if and only if no undo brings an unrelated `.old`
  file to life (`CaRotate.RotateBoth`, `CaRotate.KeptFileRevived`), which always holds when the live
  files were there.
* A committed serial, and a committed index, is the whole one if and only if all of it is in the file
  once that is closed, which nothing checks (`CaCommit.Commit`, `CaCommit.EmptySerialInstalled`,
  `CaCommit.EmptyIndexInstalled`).
* A pass over the descriptor table removes all dead slots if and only if no two of them are
  neighbours (`PollTable.CleanAfter`, `PollTable.NeighbourLeft`).

The comment above `urldecode` says that malformed sequences are ignored; the code returns -1 for
them, and the model follows the code.

## Model

| member | source | states |
|---|---|---|
| RehashBitMask.BitSet | src/OpenSSL-1.1.0g/apps/rehash.c:94-102 | setting a bit changes the answer of the bit test for that bit and for no other one of the mask |
| RehashIds.AssignIds | src/OpenSSL-1.1.0g/apps/rehash.c:376-438 | for every bucket, also when its 16-bit counter has wrapped around: the two passes are defined iff the counter is at most 256 and the kept ids plus the entries that get a new link are no more than the cleared bits; they then follow the plan, and number the needed entries 0 .. n-1 without gap or repeat iff n is at most 256 and the bucket is tight |
| RehashIds.SearchFree | src/OpenSSL-1.1.0g/apps/rehash.c:396-397 | the search stops at the least id that is not in use, or at the end of the cleared mask |
| RehashIds.WithinIffSuffices | src/OpenSSL-1.1.0g/apps/rehash.c:380-418 | a counting argument: no bit outside the cleared bytes of the mask is tested or set iff the bucket's kept ids and new links together fit into them |
| RehashIds.PlanFills | src/OpenSSL-1.1.0g/apps/rehash.c:385-418 | old ids below the number needed are kept; a new id is the least one neither kept nor handed out before, and new ids increase |
| RehashIds.TightIsGapFree | src/OpenSSL-1.1.0g/apps/rehash.c:380-418 | pigeonhole: in a tight bucket all ids of needed entries are below their number, distinct, and cover 0 .. n-1 |
| RehashIds.GapFreeIffTight | src/OpenSSL-1.1.0g/apps/rehash.c:380-418 | gap-free iff needed entries share no old id below n and no other link sits alone on such an id; then the mask is never overrun |
| RehashIds.StaleLinkLeavesGap | src/OpenSSL-1.1.0g/apps/rehash.c:381-397 | a stale link on id 0 leaves the only needed file with id 1 |
| RehashIds.DeletesIffOvertaken | src/OpenSSL-1.1.0g/apps/rehash.c:385-434 | a link that was just made is deleted again by a later entry iff some superfluous link has an id that the entries before it reach with their new links |
| RehashIds.TightKeepsNewLinks | src/OpenSSL-1.1.0g/apps/rehash.c:385-434 | in a tight bucket no link that was made is deleted |
| RehashIds.NewLinkDeleted | src/OpenSSL-1.1.0g/apps/rehash.c:385-434 | a file with two stale links behind it loses the link made for it |
| RehashSpec.RunKeepsBuckets | src/OpenSSL-1.1.0g/apps/rehash.c:108-170 | after any run of calls every bucket has distinct file names, distinct digests among needed entries, and a counter equal to their number modulo 2^16 |
| RehashSpec.RunSummarises | src/OpenSSL-1.1.0g/apps/rehash.c:128-169 | the table is a map of summaries: a file is present iff a call for it was accepted, its id is the least accepted id, it is needed iff an accepted call asked for a link, and its digest is that of the first such call |
| RehashSpec.AcceptedIff | src/OpenSSL-1.1.0g/apps/rehash.c:130-149 | a call is accepted iff its digest is not in the bucket, under any file name, and its file is there or the counter is below 256 |
| RehashSpec.AddFind | src/OpenSSL-1.1.0g/apps/rehash.c:128-169 | an accepted call changes the entry it names and nothing else; a rejected one changes nothing |
| RehashSpec.FilesOnlyGapFree | src/OpenSSL-1.1.0g/apps/rehash.c:269-275 | a run over plain files, without links, always ends in buckets the allocator numbers without gap |
| RehashSpec.StaleLinkRun | src/OpenSSL-1.1.0g/apps/rehash.c:209-273 | a link followed by a file of the same hash is a run that ends in a gap |
| RehashListing.BucketIsListing | src/OpenSSL-1.1.0g/apps/rehash.c:108-170 | in whatever order a directory is read that has no certificate under two names, the bucket ends up holding exactly what the directory holds, several links to one file counting with the lowest number; for at most 256 names, or any number when links come before files |
| RehashListing.OutcomeOfReading | src/OpenSSL-1.1.0g/apps/rehash.c:370-418 | for the same directories, whether the numbering is gap-free and whether the mask suffices depends on the directory alone and not on the order of reading |
| RehashListing.DuplicateKeepsFirst | src/OpenSSL-1.1.0g/apps/rehash.c:131-136 | of one certificate under two names the one read first is taken, so there the order does matter |
| RehashListing.SecondRunKeepsLinks | src/OpenSSL-1.1.0g/apps/rehash.c:385-392 | after a run that ended in a tight bucket, any run that reads the files and the links made for them, in any order, keeps every link |
| RehashOverrun.StaleLinksOverrun | src/OpenSSL-1.1.0g/apps/rehash.c:380-397 | k stale links on the ids 0 .. k-1 and m files: the mask suffices iff min(k, m) + m is at most the number of cleared bits; with eight of each it does not |
| RehashOverrun.StaleLinksRun | src/OpenSSL-1.1.0g/apps/rehash.c:380-397 | a concrete run of that kind on names do_file looks at, in which bit 8 is tested with one byte cleared |
| RehashOverrun.ManyLinksRun | src/OpenSSL-1.1.0g/apps/rehash.c:143-169 | n links followed by their n files are all let in, and the mask suffices iff n is at most 256; 257 clear 33 of its 32 bytes |
| RehashHeap.BucketNode.Search | src/OpenSSL-1.1.0g/apps/rehash.c:130-143 | the walk along the entry list: whether the digest occurs, and otherwise the node of that file name, if any |
| RehashHeap.BucketNode.Append | src/OpenSSL-1.1.0g/apps/rehash.c:151-159 | a new node behind the last one; the list still runs from the first to the last pointer, each node once |
| RehashHeap.BucketNode.TouchEntry | src/OpenSSL-1.1.0g/apps/rehash.c:162-168 | the lower id is kept, and the first call that asks for a link sets the mark, the digest and the counter; no other entry changes |
| RehashHeap.BucketNode.Add | src/OpenSSL-1.1.0g/apps/rehash.c:130-169 | on the linked entries of one bucket: duplicate digests, overflow at 256, lowest id, first digest, as specified for its contents |
| RehashHeap.HashTable.Put | src/OpenSSL-1.1.0g/apps/rehash.c:108-169 | on the pointers: one bucket, found in its chain or pushed at the head, gets the call; all other buckets keep their entries |
| RehashHeap.InItsChain | src/OpenSSL-1.1.0g/apps/rehash.c:118-126 | every bucket is in the chain (type + hash) mod 2^32 mod 257 of the table, which its slot heads |
| RehashHeap.HashTable.AddEntry | src/OpenSSL-1.1.0g/apps/rehash.c:108-170 | one call on the chained nodes is one call on the table they represent; no key has two nodes |
| RehashHeap.AddAll | src/OpenSSL-1.1.0g/apps/rehash.c:108-170 | a whole run from the empty table represents the specified table, and the errors are the rejected calls |
| CaPolicy.IndexByObj | src/OpenSSL-1.1.0g/crypto/x509/x509name.c:65-83 | the first entry of the type behind the given position, or none |
| CaPolicy.MatchCa | src/OpenSSL-1.1.0g/apps/ca.c:1525-1552 | the search ends, finds the request's value among the CA's entries of that type iff it is there, and otherwise tells a missing type from a different value |
| CaPolicy.ApplyLine | src/OpenSSL-1.1.0g/apps/ca.c:1488-1569 | one policy line either fails with the fault that applies or appends all request entries of its type in order |
| CaPolicy.BuildSubject | src/OpenSSL-1.1.0g/apps/ca.c:1479-1570 | success iff every line is known and valid, supplied and match fields occur, and every match value is among the CA's; the subject is the concatenation in policy order; otherwise the first faulty line and its fault |
| CaPolicy.FaultIs | src/OpenSSL-1.1.0g/apps/ca.c:1485-1552 | what each of the rules optional, supplied and match asks of the request and of the CA's name, entry by entry, and the fault otherwise |
| CaPolicy.SubjectOrder | src/OpenSSL-1.1.0g/apps/ca.c:1479-1570 | the subject follows the policy line by line |
| CaPolicy.SubjectOfLine | src/OpenSSL-1.1.0g/apps/ca.c:1488-1569 | and within a line the request |
| CaPolicy.SelfSigned | src/OpenSSL-1.1.0g/apps/ca.c:1471-1475 | for a self-signed request match asks no more than supplied |
| CaPolicy.SubjectMembers | src/OpenSSL-1.1.0g/apps/ca.c:1479-1570 | an accepted subject holds exactly the request's entries whose type is listed |
| CaPolicy.MatchedComesFromCa | src/OpenSSL-1.1.0g/apps/ca.c:1515-1552 | under match every subject entry of the type is an entry of the CA's name |
| CaDisk.Disk.Rename | src/OpenSSL-1.1.0g/apps/apps.c:1438-1457 | a rename fails with no entry iff the source is missing, fails otherwise when disturbed, else moves the file |
| CaDisk.Disk.Write | src/OpenSSL-1.1.0g/apps/apps.c:1578-1587 | opening empties the file; a prefix of the text is in it after closing, independently of whether writing to the output buffer reported a failure |
| CaRotate.Rotate | src/OpenSSL-1.1.0g/apps/apps.c:1438-1459 | for every pattern of failures the old contents exist at every step under the live or the kept name; success iff no rename fails, and then fully rotated; after an undisturbed undo the incoming file is back, and the live one iff the first rename failed, there was a live file, or there was no kept one |
| CaRotate.Install | src/OpenSSL-1.1.0g/apps/apps.c:1449-1457 | the second rename and its undo, with the same guarantees |
| CaRotate.KeptFileRevived | src/OpenSSL-1.1.0g/apps/apps.c:1449-1455 | an input without a live file on which the second rename fails and the undo brings a kept file to life |
| CaRotate.TakeBack | src/OpenSSL-1.1.0g/apps/apps.c:1652-1663 | undoing an installed index preserves the old contents at every step, and restores both files under the same condition |
| CaRotate.RotateSecond | src/OpenSSL-1.1.0g/apps/apps.c:1646-1664 | the renames of the attribute file, and the rollback across both files when one of them fails |
| CaRotate.RotateBoth | src/OpenSSL-1.1.0g/apps/apps.c:1631-1667 | index and attribute file together: success iff none of the four renames fails, as given by the files and the faults beforehand; at every step and at the end both old contents exist and no other name is touched; when the rest is undisturbed, both incoming files are back, and each live one iff its undo, if reached, does not meet a kept file without a live one |
| CaRotate.RotateSerial | src/OpenSSL-1.1.0g/apps/apps.c:1419-1460 | by name: success iff the names fit, file.new is there and neither rename is disturbed; then file holds what file.new held and file.old what file held; no other name is touched, and at every step the old serial is under one of the two; too long names fail and change nothing |
| CaRotate.RotateIndex | src/OpenSSL-1.1.0g/apps/apps.c:1604-1668 | by name, for the index and its attribute file alike: success iff the names fit, both incoming files are there and no rename is disturbed; then both are live and both predecessors kept; what an undisturbed rollback leaves; too long names fail and change nothing |
| CaRotate.NamesDistinct | src/OpenSSL-1.1.0g/apps/apps.c:1619-1623 | with the suffixes new and old the six names never collide, for any file name |
| CaCommit.SaveSerial | src/OpenSSL-1.1.0g/apps/apps.c:1369-1416 | only the new name is touched; success iff the name fits and the file opens, and then the file holds the prefix that arrived |
| CaCommit.SaveIndex | src/OpenSSL-1.1.0g/apps/apps.c:1558-1602 | only the two new names are touched; success iff the names fit, the index is not empty, no failure to write it is reported and the attribute file opens; then both files hold the prefixes that arrived |
| CaCommit.RotateIndexLast | src/OpenSSL-1.1.0g/apps/ca.c:1042-1043 | once the serial is in place, every state of the index rotation is safe, and what an undisturbed rollback leaves is exact |
| CaCommit.NamesByLetter | src/OpenSSL-1.1.0g/apps/apps.c:1619-1623 | the nine names of a commit, letter by letter |
| CaCommit.Commit | src/OpenSSL-1.1.0g/apps/ca.c:972-1046 | by name: in every state, whatever fails and wherever the run stops, a new live index meets the live serial that was saved with it, and the old serial, index and attributes are under their own or their .old name; success iff the names fit, the index is not empty and reported as written, all files open, the certificates are written and none of the six renames is disturbed; then what arrived of the three texts is live and the predecessors are under .old; if nothing else fails, a live file is as before iff its rename was not reached or its undo met no kept file without a live one, except that an installed serial stays |
| CaCommit.EmptySerialInstalled | src/OpenSSL-1.1.0g/apps/apps.c:1406-1408 | media on which a commit succeeds by the contract of Commit and the serial that arrives is empty |
| CaCommit.EmptyIndexInstalled | src/OpenSSL-1.1.0g/apps/apps.c:1584-1587 | media on which a commit succeeds and the index that arrives is empty, since closing is not checked |
| CaSerial.IndexSerialCmp | src/OpenSSL-1.1.0g/apps/apps.c:1293-1301 | zero iff equal up to leading zeros, and on upper-case hexadecimal iff the numbers are equal |
| CaSerial.StripIffValue | src/OpenSSL-1.1.0g/apps/apps.c:1293-1301 | spellings agree up to leading zeros iff they denote the same number |
| CaSerial.SameSerialSameHash | src/OpenSSL-1.1.0g/apps/apps.c:1283-1291 | equal numbers hash equally, for any string hash |
| CaSerial.SerialOkByName | src/OpenSSL-1.1.0g/apps/ca.c:657-675 | a serial field is accepted iff it is an optional minus sign and an even number of at least two digits of 0 to 9, a to f and A to F |
| CaSerial.ValueSnoc | src/OpenSSL-1.1.0g/apps/ca.c:1125-1126 | the number a field denotes, digit by digit in either case |
| CaSerial.SerialTextValue | src/OpenSSL-1.1.0g/apps/ca.c:2046-2049 | the serial field written for a number, negative ones included, denotes it and has the format the load check accepts |
| CaSerial.NormaliseQuery | src/OpenSSL-1.1.0g/apps/ca.c:2142-2161 | the buffer of length + 2 bytes holds the padded upper-case spelling and its terminator |
| CaSerial.QueryValue | src/OpenSSL-1.1.0g/apps/ca.c:2144-2161 | padding and upper-casing keep the number, for odd, even and lower-case spellings |
| CaSerial.QueryFinds | src/OpenSSL-1.1.0g/apps/ca.c:2144-2166 | a query finds a serial field iff the field is spelled with upper-case digits only and denotes the same number |
| CaSerial.LowerCaseNeverFound | src/OpenSSL-1.1.0g/apps/ca.c:669-675 | the field 0a passes the load check and denotes ten, yet no hexadecimal query finds it |
| CaRevocation.MakeRevocationStr | src/OpenSSL-1.1.0g/apps/ca.c:2282-2366 | the buffer it allocates holds time[,reason[,argument]] and its terminator, and nothing else; none for an unknown reason or a bad argument |
| CaRevocation.UnpackRevinfo | src/OpenSSL-1.1.0g/apps/ca.c:2471-2581 | the pieces at the first two commas, interpreted; every way to fail |
| CaReasons.TableByName | src/OpenSSL-1.1.0g/apps/ca.c:2257-2271 | the eleven words of the table, letter by letter |
| CaReasons.ReasonCodes | src/OpenSSL-1.1.0g/apps/ca.c:2290-2298 | each of the eight reasons, in any mixture of capital and small letters, is written as the table spells it and read back as its code of section 5.3.1 of RFC 5280 |
| CaReasons.TextIs | src/OpenSSL-1.1.0g/apps/ca.c:2300-2340 | what is written for a hold instruction and for the two compromise times |
| CaReasons.UnpackIs | src/OpenSSL-1.1.0g/apps/ca.c:2471-2581 | what every field means, word by word, and which are refused: an unreadable time, an unknown word, a hold without a valid identifier, a compromise without a valid time |
| CaReasons.FieldForms | src/OpenSSL-1.1.0g/apps/ca.c:2480-2500 | every string has one of the three forms time, time and word, or time, word and argument, so the meaning is given for all |
| CaReasons.EqualIffVariant | src/OpenSSL-1.1.0g/apps/ca.c:2291-2293 | strings are equal for strcasecmp iff they differ only in the case of ASCII letters |
| CaRevocation.TextExists | src/OpenSSL-1.1.0g/apps/ca.c:2290-2340 | a text exists iff the request is valid: the reason is one of the eight words up to case, or the argument is well formed |
| CaRevocation.CrlReasonsUnambiguous | src/OpenSSL-1.1.0g/apps/ca.c:2257-2271 | every word of the reason table is found at its own place, and none contains a comma |
| CaRevocation.RoundTrip | src/OpenSSL-1.1.0g/apps/ca.c:2471-2581 | unpacking inverts writing for every request and every unambiguous table, even with commas in the argument, giving the place of the word and the same instruction or time |
| CaRevocation.UnpacksIffUtc | src/OpenSSL-1.1.0g/apps/ca.c:2471-2581 | the text written for any request can be read back iff the clock was a UTCTime |
| CaExpiry.ExpiredIffReadPast | src/OpenSSL-1.1.0g/apps/ca.c:2216-2247 | on every form of date the load check accepts: expired iff the first twelve digits, read as a UTCTime, do not lie after the clock; without seconds, a date in Z is read as the end and one with an offset as the start of its minute |
| CaExpiry.ExpiredIffPast | src/OpenSSL-1.1.0g/apps/ca.c:2216-2247 | on UTCTime strings the comparison is that of the instants, with the year-50 pivot of section 4.1.2.5.1 of RFC 5280 |
| CaExpiry.StrcmpDigits | src/OpenSSL-1.1.0g/apps/ca.c:2234 | strcmp on digit strings of one length orders them as numbers |
| CaExpiry.GeneralizedMisread | src/OpenSSL-1.1.0g/apps/ca.c:2225-2247 | on every GeneralizedTime: the century is taken for a two-digit year and compared with the clock's, with its year-50 pivot, and then digit by digit |
| CaExpiry.WrongIffMisjudged | src/OpenSSL-1.1.0g/apps/ca.c:2225-2247 | the verdict on a UTCTime, a GeneralizedTime or a date without seconds differs from that of the instants iff the clock lies between the date's instant and the one it is read as |
| CaExpiry.LateDates | src/OpenSSL-1.1.0g/apps/ca.c:2225-2247 | a date from 2050 to 2099 is in the future, yet counts as expired iff the clock shows a year above 2020 |
| CaExpiry.FarDates | src/OpenSSL-1.1.0g/apps/ca.c:2225-2247 | a date from 5000 on is in the future, yet counts as expired on every clock from 2000 on |
| CaExpiry.ShortTimeLate | src/OpenSSL-1.1.0g/apps/ca.c:2225-2247 | a date without seconds is not expired when its minute begins |
| CaExpiry.Expires2050 | src/OpenSSL-1.1.0g/apps/ca.c:2225-2247 | on 1 January 2024 a certificate that ends in 2050 is marked expired |
| CaExpiry.Expires2030 | src/OpenSSL-1.1.0g/apps/ca.c:2225-2247 | so is one that ends in 2030, when that was encoded with a four-digit year |
| CaExpiry.NoExpiryExpires | src/OpenSSL-1.1.0g/apps/ca.c:2225-2247 | so is one with the date for certificates without an end, section 4.1.2.5 of RFC 5280 |
| CaDatabaseSpec.RunKeeps | src/OpenSSL-1.1.0g/apps/ca.c:639-676 | whatever is signed, revoked or updated, every run keeps the serial format, empty revocation fields of unrevoked rows, distinct serials, and the name index in order |
| CaDatabaseSpec.LoadableIff | src/OpenSSL-1.1.0g/apps/ca.c:639-676 | after any run the database passes the load checks iff every recorded certificate has a readable date and every revocation was made at a clock that is a UTCTime |
| CaDatabaseSpec.UnreadableDateRecorded | src/OpenSSL-1.1.0g/apps/ca.c:2061-2094 | recording one certificate with an unreadable date ends in a database that does not load |
| CaDatabaseSpec.RunLater | src/OpenSSL-1.1.0g/apps/ca.c:2118-2122 | no row is lost or renumbered, no row becomes valid again, and a revoked row never changes |
| CaDatabaseSpec.RevokeEffect | src/OpenSSL-1.1.0g/apps/ca.c:2032-2129 | after a successful revocation exactly one row has the serial, it is revoked with the text of the request, and all other rows are unchanged |
| CaRevoking.SignExact | src/OpenSSL-1.1.0g/crypto/txt_db/txt_db.c:237-278 | a certificate is entered iff no row has its serial and, where subjects are unique, no indexed row has its subject; then a valid row with its date, serial and subject is added, and nothing else |
| CaRevoking.RecordExact | src/OpenSSL-1.1.0g/apps/ca.c:2059-2108 | recording without revoking succeeds under the same condition and does the same |
| CaRevoking.RevokePresent | src/OpenSSL-1.1.0g/apps/ca.c:2101-2125 | a certificate that is there is revoked iff its row has the same subject, is not of type R, and the request is valid; then only type and revocation field of that row change, and otherwise nothing |
| CaRevoking.RevokeAbsent | src/OpenSSL-1.1.0g/apps/ca.c:2060-2099 | one that is not there is revoked iff its subject is free and the request is valid; when only the request is invalid its row is added unrevoked; earlier rows never change |
| CaRevoking.ExpiredIsRevoked | src/OpenSSL-1.1.0g/apps/ca.c:2109-2122 | an expired certificate can be revoked |
| CaRevoking.FlipsCountDue | src/OpenSSL-1.1.0g/apps/ca.c:2220-2246 | the count of an update is the number of valid rows that are expired |
| CaDatabaseSpec.UpdateExact | src/OpenSSL-1.1.0g/apps/ca.c:2199-2255 | on dates of all accepted forms exactly the valid rows whose date, as it is read, is not after the clock change, and a second pass changes and counts none |
| CaDatabaseSpec.UpdateRightIff | src/OpenSSL-1.1.0g/apps/ca.c:2199-2255 | the rows that change are those whose instant has come iff no valid row is misjudged, always so when all dates are UTCTime |
| CaDatabaseSpec.ListedIffRevoked | src/OpenSSL-1.1.0g/apps/ca.c:1114-1135 | a number is listed iff some revoked row denotes it |
| CaDatabaseSpec.CanonicalIffNumber | src/OpenSSL-1.1.0g/apps/ca.c:1125-1126 | two serial fields denote the same number iff they agree in sign, and in digits up to case and leading zeros |
| CaDatabaseSpec.ListedOnce | src/OpenSSL-1.1.0g/apps/ca.c:1114-1135 | the list is free of repeats iff no two revoked rows differ in spelling only |
| CaDatabaseSpec.CrlOfAnyRun | src/OpenSSL-1.1.0g/apps/ca.c:1114-1135 | after any run whatsoever on serials as the command spells them, negative ones included, every revoked serial is listed once and no other |
| CaDatabaseSpec.LowerCaseListedTwice | src/OpenSSL-1.1.0g/apps/ca.c:669-675 | a database that passes the load checks and lists serial 10 twice |
| CaDatabase.CheckRows | src/OpenSSL-1.1.0g/apps/ca.c:639-676 | true iff every row has a readable revocation field if it is revoked and an empty one otherwise, a readable date, and a serial of the accepted form |
| CaDatabase.CheckIndexes | src/OpenSSL-1.1.0g/apps/apps.c:1536-1556 | true iff serials are distinct up to leading zeros and, if asked for, subjects of valid rows are distinct |
| CaDatabase.Load | src/OpenSSL-1.1.0g/apps/ca.c:633-685 | a database is loaded iff it passes all checks, and then satisfies what every run keeps |
| CaDatabase.Database.InsertRow | src/OpenSSL-1.1.0g/crypto/txt_db/txt_db.c:237-278 | refused iff the serial or, for a valid row, the indexed subject is taken; else appended |
| CaDatabase.Database.Revoke | src/OpenSSL-1.1.0g/apps/ca.c:2032-2129 | the specified new rows and result; it calls itself once at most, since the serial is present afterwards |
| CaDatabase.Database.UpdateDb | src/OpenSSL-1.1.0g/apps/ca.c:2199-2255 | the specified rows, and the number of flipped rows |
| CaDatabase.Database.Status | src/OpenSSL-1.1.0g/apps/ca.c:2131-2197 | for any hexadecimal spelling and any rows, a row is found iff it is spelled in upper case and its number is the one asked for; its type is reported |
| CaDatabase.Database.MakeCrl | src/OpenSSL-1.1.0g/apps/ca.c:1114-1135 | the numbers of the revoked rows, in order; none iff some revocation field cannot be read |
| ParseName.Parse | src/OpenSSL-1.1.0g/apps/apps.c:1703-1779 | equals the grammar for every input, with every write inside the duplicate of the input |
| ParseName.CollectType | src/OpenSSL-1.1.0g/apps/apps.c:1728-1737 | the type up to the first equals sign is in the buffer, terminated |
| ParseName.CollectValue | src/OpenSSL-1.1.0g/apps/apps.c:1740-1753 | the unescaped value follows in the buffer, terminated; fails iff a backslash is last |
| ParseName.ScanOfSpelling | src/OpenSSL-1.1.0g/apps/apps.c:1741-1752 | reading any spelling of a value gives that value and stops at the separator |
| ParseName.ScanIsSpelling | src/OpenSSL-1.1.0g/apps/apps.c:1741-1752 | whatever is read was a spelling of the value |
| ParseName.EscapeSpells | src/OpenSSL-1.1.0g/apps/apps.c:1699-1702 | putting a backslash before each slash, plus and backslash gives a spelling of the value |
| ParseName.ParsedOfWritten | src/OpenSSL-1.1.0g/apps/apps.c:1703-1779 | parsing inverts writing for every list of attributes and every spelling, also with a separator behind the last one |
| ParseName.ParsesIff | src/OpenSSL-1.1.0g/apps/apps.c:1703-1779 | an input is accepted iff it is a slash alone or a list of attributes in some spelling, perhaps with a separator behind it, of which no known type has a value that is not accepted |
| ParseName.RoundTrip | src/OpenSSL-1.1.0g/apps/apps.c:1703-1779 | for every list of attributes: rejected iff a known type has a value that is not accepted; otherwise the name holds the attributes of known type in order, the others being skipped, and exactly a plus joins one to its predecessor in the name |
| NextProtos.Parse | src/OpenSSL-1.1.0g/apps/apps.c:1878-1903 | success iff shorter than 65535 with segments of at most 255; the buffer of length + 1 bytes decodes to the segments, and its store operation was used once on each byte |
| NextProtos.Output.Store | src/OpenSSL-1.1.0g/apps/apps.c:1894-1898 | a store changes one byte of the buffer and counts that byte once more |
| NextProtos.SplitJoins | src/OpenSSL-1.1.0g/apps/apps.c:1888-1898 | the segments are comma-free and join to the input |
| NextProtos.EncodeHead | src/OpenSSL-1.1.0g/apps/apps.c:1890-1898 | byte by byte: the length of the first segment, the segment, and the rest in the same way |
| NextProtos.DecodeEncode | src/OpenSSL-1.1.0g/apps/apps.c:1870-1876 | reading the length-prefixed format inverts writing it |
| UrlDecode.Urldecode | src/OpenSSL-1.1.0g/apps/ocsp.c:1034-1053 | in place equals the pure decoder; -1 iff some percent sign lacks two digits; nothing behind the string is touched |
| UrlDecode.DecodeIffEncodes | src/OpenSSL-1.1.0g/apps/ocsp.c:1039-1050 | decoding gives the data iff the text is a percent-encoding of it with digits of either alphabet, section 2.1 of RFC 3986 |
| UrlDecode.TripletDecodes | src/OpenSSL-1.1.0g/apps/ocsp.c:1042-1045 | every byte, written as a percent sign and two digits of 0123456789abcdef or 0123456789ABCDEF, is decoded to that byte |
| UrlDecode.XDigitByName | src/OpenSSL-1.1.0g/apps/ocsp.c:1042-1043 | the characters that are taken for digits are those of the two alphabets |
| UrlDecode.FailsIffMalformed | src/OpenSSL-1.1.0g/apps/ocsp.c:1042-1049 | decoding fails iff some percent sign is not followed by two hexadecimal digits |
| UrlDecode.RoundTrip | src/OpenSSL-1.1.0g/apps/ocsp.c:1034-1053 | every byte string survives encoding and decoding, and its encoding has no NUL |
| CmsOptions.Machine.Option | src/OpenSSL-1.1.0g/apps/cms.c:478-564 | one option changes the lists as specified, or stops with the right error |
| CmsOptions.Machine.End | src/OpenSSL-1.1.0g/apps/cms.c:603-627 | the final pairing step |
| CmsOptions.ReadOptions | src/OpenSSL-1.1.0g/apps/cms.c:478-627 | a whole command line gives the specified outcome |
| CmsPairing.OutcomeIs | src/OpenSSL-1.1.0g/apps/cms.c:478-627 | every command line, in terms of its options: refused for lack of a signer when empty, for lack of a key when it starts with -keyopt, and for a key without signer when the other options do not fall into groups of a signer, a signer and its key, or a key and its signer; otherwise these groups are the pairs, a lone signer being its own key |
| CmsPairing.PairsIffGrouped | src/OpenSSL-1.1.0g/apps/cms.c:486-512 | taking a key whenever one follows never spoils a grouping |
| CmsPairing.KeysFirst | src/OpenSSL-1.1.0g/apps/cms.c:497-512 | two keys that stand before their signers are paired with them |
| CmsOptions.RunInStep | src/OpenSSL-1.1.0g/apps/cms.c:478-564 | after any options the two lists are equally long, hold the files given so far in order, and indices increase |
| CmsOptions.OutcomeLists | src/OpenSSL-1.1.0g/apps/cms.c:603-627 | on success the signers are all -signer files in order, the keys are the -inkey files in order and otherwise the signer's own file, and indices strictly increase below the number of pairs |
| CmsOptions.ParamsAreKeyOpts | src/OpenSSL-1.1.0g/apps/cms.c:535-564 | the recorded parameters, read along the list, are the -keyopt options in order, each at the position of the pair under construction |
| CmsOptions.KeyOptPair | src/OpenSSL-1.1.0g/apps/cms.c:541-545 | that position is where the signer and key named so far end up in the final lists |
| PollTable.Squeeze | src/open-server/poll_server.cpp:482-498 | the nested loops leave one pass over the used slots, and change no slot behind them; a slot behind the array is read iff the table is full and has a dead slot |
| PollTable.PassKeepsLive | src/open-server/poll_server.cpp:487-494 | live slots keep fd, events, revents and order |
| PollTable.RunIsHalved | src/open-server/poll_server.cpp:485-496 | of a maximal run of k dead slots k / 2 are left |
| PollTable.PassShrinks | src/open-server/poll_server.cpp:495 | the table gets shorter while it holds a dead slot |
| PollTable.CleanAfter | src/open-server/poll_server.cpp:482-498 | n passes leave exactly the live slots iff every run of dead slots is shorter than 2^n |
| PollTable.NeighbourLeft | src/open-server/poll_server.cpp:485-496 | of two neighbours that are dead one is left after a pass |
| RoundRobin.MessageProcessor.OnNewClientMessage | src/open-server/html_messageprocessor.cpp:161-171 | a new session joins the end of the queue |
| RoundRobin.MessageProcessor.ProcessMessageQueue | src/open-server/html_messageprocessor.cpp:58-157 | a wakeup drains the queue, and the turn carries over to the next one |
| RoundRobin.Serve | src/open-server/html_messageprocessor.cpp:58-171 | after any run of arrivals and wakeups each dispatcher has its share of what was handled |
| RoundRobin.DealtInTurn | src/open-server/html_messageprocessor.cpp:70-141 | the k-th session is number k / 12 of dispatcher k mod 12, so streams are first-in first-out |
| RoundRobin.DealtEvenly | src/open-server/html_messageprocessor.cpp:70-141 | loads differ by one at most |
| RoundRobin.DealtAll | src/open-server/html_messageprocessor.cpp:70-141 | no session is lost or handed out twice: place j of dispatcher d holds session 12 j + d, and exists iff that session does |
| LinkCodec.HeaderParser.Parse | src/open-server/http_header_parser.cpp:9-31 | the path of the request line, once per request |
| LinkCodec.LinkHasNoSpace | src/open-server/http_message_dispatcher.cpp:308 | a link has no space, and is the path itself if that has none |
| LinkCodec.RequestPathIs | src/open-server/http_header_parser.cpp:9-31 | a request has a path iff its first line, broken by a return or newline, has a space behind the first four characters and before its last one; the path reaches up to the last such space |
| LinkCodec.LinkRoundTrip | src/open-server/http_message_dispatcher.cpp:308 | a link leads back to the listed path iff the path has no literal "%20" |
| LinkCodec.RequestRoundTrip | src/open-server/http_header_parser.cpp:18-24 | requesting the emitted link in a request line of section 3.1.1 of RFC 7230 gives the path back, under that same condition |

## Left out

- CaDisk.Disk.Rename: reports a missing entry exactly when the source is missing; the two names of every rename lie in one directory, so POSIX has no other reason for ENOENT or ENOTDIR.
- CaDatabase.Database.InsertRow: memory failures of the index are not modelled, and neither is the lookup by subject with an empty field that precedes signing.
- CaCommit.SaveSerial: the failure to convert the serial to ASN.1, which is one of memory, is not modelled.
- CaDatabaseSpec.UpdateRightIff: dates with an offset, a fraction or no zone are given no instant, and a date of thirteen characters is taken for a UTCTime; how they are compared is covered by UpdateExact.
- LinkCodec.HeaderParser.Parse: requests on which the C++ string iterators would leave their bounds are reported as undefined; text encodings other than one unit per character are not modelled.
- Option tables, BIO, PEM, EVP, ENGINE, X509 and SSL plumbing, printing and prompts.
- Sockets, poll, threads and condition variables; only the queues and tables they drive are modelled.
- Sending of responses, file chunks and the response cache.
- Merging of request fragments, splitting of command lines into words, and effects of links on the directory.
- The smime command, whose pairing loop repeats that of cms.
- Removal of e-mail attributes from a subject, and the preserve option.
