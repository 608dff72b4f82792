# pySim in Dafny: file selection, transfers, secured packets and codecs

pySim talks to SIM, USIM, ISIM and eUICC cards.  It keeps a tree of file objects (MF, DF, ADF, EF) and, for every
logical channel, a note of which file is selected.  The card keeps its own.  This project models the code that holds
the two together and the byte-level code around it, and proves what that code is for.

* `Filesystem`, `Hierarchy`, `Building`, `Naming`, `Meanings`: the file objects, how they are attached and make up a
  tree, the relative path from one file to another, the names selectable from a file and what each of them means, and
  the lookup of path strings.
* `Card`, `Correspondence`, `Runtime`: a card that knows identifiers only, resolves every SELECT itself and may
  refuse any of them; and `select`, `select_file`, `probe_file`, `reset` and `add_lchan` running against it.
* `Escape`, `Leaving`, `Probing`: what leaving an application without a file system depends on, with a session that
  does it, and where the card is after `probe_file`.
* `CardMemory`, `Commands`, `BerTlv`: READ and UPDATE BINARY, READ and UPDATE RECORD, SET and RETRIEVE DATA.
* `Sms`, `Ota`, `OtaResponse`: SMS T-PDUs, OTA command packets and their responses.
* `DbiQuote`, `ServiceTable`, `Oid`, `JavaCard`: an escape coder with its size bound, the service table bitmap, the
  OBJECT IDENTIFIER decoder, and the splitting and joining of Java Card load files.

`Bytes` and `Wrappers` hold what they share.  `dafny verify dfyconfig.toml` checks everything.

## How the model reads

**Refusals.**  The card's side of a command decides nondeterministically whether to answer.  A ghost counter,
`refusals`, counts the commands the card turned down although nothing was wrong with them.  So "the counter did not
move" says that the card carried out what it could, and a contract of the form "fails only if the counter moved" says
that the code itself never fails.

**The tree.**  A ghost map gives every attached file the list of files from the MF down to it; `ValidTree` says that
the objects' `parent`, `children` and `applications` fields agree with it.  `Unambiguous` and `WellNamed` are the
naming conventions that path strings rely on: no sibling is named like another's FID, no application is named or
numbered like another, like the MF or like a file directly below it, and no identifier holds a slash.  `Building` shows
that attaching files and applications keeps `ValidTree`.

**The escape.**  To leave an application without a file system (a bare one), `select_file` picks the first application
with a file system, `FirstFs`, and selects it by name.  `EscapeIsNamed`, a part of the channel's `Valid`, says that this
name means that application there.  `Escape.EscapeIsNamedIff` derives it from the naming conventions and one more: no
file inside a bare application is called like the application picked.  Where the name means a file that is no
application, and only there, the source calls `select_file` and `select` in turn without end
(`Escape.EscapeRecursesIff`); where it means nothing, it raises.  If the application picked is not on the card
(`PickOnCard`), a bare application can be entered but not left for a file outside applications.  So the calls below
succeed under exact conditions on the state and the target, and not otherwise, if the card refuses nothing:

* `Answers(f)`: the card offers `f`, and `f` is an application or none bare is selected or the pick is on the card.
* `Returns(f)`: a failing `select` gets back to where it began unless `f` lies inside a bare application that the card
  holds, the start is no application and the pick is not on the card.  Then that bare application stays selected.
* `OpenFrom` and `WayBack` are the same for the names of a path string, `CanRestart` for `reset`.

**The card.**  Its files are found by identifier, in the search order of section 7.1.1 of ISO/IEC 7816-4, within the
reach that section 8.4.1 of ETSI TS 102 221 gives a SELECT; an application without a file system answers no SELECT by
FID.  The card may lack known files and hold unknown ones.  `Matches` says what it must agree on: what it holds is of
the known kind, no known file shares its FID with a directory above it, and where a known file is missing, no directory
beside its parent answers to its FID.  That last condition cannot be spared: where it fails, `select_file` is led to the
directory beside (`Correspondence.MissingFileIsAnswered`).

**Two facts about the code that the proofs brought out.**

* `send_apdu_checksw` accepts `9000` alone unless told otherwise, and `_set_data` and `_retrieve_data` tell it nothing.
  So where the transport hands them on, the interim answers `63F1` and `62F1` of section 11.3 of ETSI TS 102 221 raise
  an exception before the loops of `set_data` and `retrieve_data` can go on.  (With T=0, lines 309-317 of
  `pySim/transport/__init__.py` answer 62xx and 63xx by GET RESPONSE first; that is not modelled.)  `BerTlv.SetData`,
  `BerTlv.RetrieveData` and `BerTlv.SetAndRetrieve` give the exact conditions under which an object gets through;
  `BerTlv.SendAndCollect` shows that the loops themselves are right for every length and block size.
* `probe_file` enters an accepted FID as a child of the selected directory.  On a synchronised channel that is where the
  card went if and only if the card holds such a child (`Runtime.RuntimeLchan.ProbeFile`).  Otherwise the card has moved
  to a directory beside the selected one (`Probing.ProbedFileIsBelowOrBeside`), and that may well be a file pySim knows:
  from a directory, the FID of the one beside it selects nothing.  `Probing.ProbeLeavesTheDirectory` is a session on the
  MF with `7f10` and `7f20` in which it happens.

Smaller ones: `SMS_DELIVER` loses `tp_lp`, whose flag bit is declared as a second `tp_rp`; service number 0 is a service
to `should_exist_for_services` and none to `_add_file_services`; with `force_len`, a conserving `update_record` returns
for data that the record merely starts with, where a plain one raises, while the file ends up the same.

## Model

| member | source | states |
|---|---|---|
| Hierarchy.FullyQualifiedPathFobj | pySim/filesystem.py:128-136 | climbing the parent pointers lists exactly the files from the MF down to this one |
| Hierarchy.GetMf | pySim/filesystem.py:168-176 | climbing from any file of the tree ends at the MF |
| Hierarchy.PathIsLineage | pySim/filesystem.py:128-136 | the list starts at the MF, ends at the file, each element is the parent of the next, all but the last are directories |
| Hierarchy.LineagesAgree | pySim/filesystem.py:153-161 | two such lists that share a file share everything above it, at the same depth |
| Hierarchy.MeetingPoint | pySim/filesystem.py:157-165 | the first file met on the way up that is an ancestor of the target is the deepest common ancestor |
| Hierarchy.ViaCommonAncestor | pySim/filesystem.py:153-166 | the nested search loops always find the route over the deepest common ancestor, clipped at its last ADF |
| Hierarchy.BuildSelectPathTo | pySim/filesystem.py:138-166 | between any two files of a tree a path is found: `[mf]` for the MF, else the clipped route |
| Hierarchy.SelectPathIsWalk | pySim/filesystem.py:138-166 | that path is not empty, ends at the target, passes only through directories, each step is the MF, an ADF, or parent or child of the step before, an ADF stands only first, and it is no longer than the distance from here to the target's parent plus one |
| Hierarchy.DistanceIsShortest | pySim/filesystem.py:138-166 | the distance in that bound is a true lower bound: no sequence of moves to a parent or child gets there in fewer |
| Hierarchy.SelectPathElements | pySim/filesystem.py:153-165 | the path stays among the ancestors of its two ends |
| Filesystem.CardFile.Admits | pySim/filesystem.py:363-383 | a child is admitted exactly if its FID and name are allowed and no present child has its FID, short FID or name; which refusal follows from which clash |
| Filesystem.AdmitsOutcome | pySim/filesystem.py:363-383 | which of the outcomes follows, check by check in the order of the source, in terms of the characters of the FID and of the identifiers present |
| Filesystem.DirOkMeans | pySim/filesystem.py:363-383 | what a directory in order is: FIDs differ, short FIDs and names differ as far as there are any, FIDs are valid, and every child points back |
| Filesystem.CardFile.AddFile | pySim/filesystem.py:357-395 | attaching keeps FIDs, names and short FIDs unique and every child pointing back; it appends exactly the child or changes nothing; it keeps the service index complete for children and grandchildren; it raises exactly if a check fails or a service sits too deep to be indexed, and then has indexed the files up to that one |
| Filesystem.CardFile.AddFiles | pySim/filesystem.py:397-405 | adding a list of files keeps the directory in order and its service index complete; every file is then in it, or has one like it there if it was to be ignored |
| Building.AddFileToTree | pySim/filesystem.py:357-395 | attaching a file, with all below it, to a directory of a tree or of a branch gives a tree or branch of exactly the files of both |
| Building.AddApplicationToTree | pySim/filesystem.py:466-473 | the same for an application with all below it, entered behind the applications already there exactly if its AID is new |
| Building.GraftIsRooted | pySim/filesystem.py:384-385 | once the top of a branch is entered, every file of it is below the directory by its fully qualified path |
| Building.BranchIsLayered | pySim/filesystem.py:349-355 | no file of a branch is its own descendant, so the search for services below it ends |
| Filesystem.CardFile.AddFileServices | pySim/filesystem.py:334-347 | the child is appended under exactly the services its attribute names |
| Filesystem.RegisteredAppends | pySim/filesystem.py:334-347 | registering a file puts it at the end of the list of each of its services, as often as it names it, and leaves all other lists alone |
| Filesystem.CardFile.IndexGrandchildren | pySim/filesystem.py:388-395 | every file below a new child is registered unless a directory two levels further down needs a service, which raises |
| Filesystem.HasServiceMeans | pySim/filesystem.py:349-355 | a service is found below a directory exactly if a way down through directories leads to one that names a service |
| Filesystem.CardFile.AddApplicationDf | pySim/filesystem.py:466-473 | an ADF is entered exactly if its AID is new; AIDs stay unique |
| Filesystem.CardFile.LookupByName | pySim/filesystem.py:425-432 | nothing is found exactly if no child has that name; what is found has it |
| Filesystem.CardFile.LookupBySfid | pySim/filesystem.py:434-441 | nothing is found exactly if no child has that short FID; what is found has it |
| Filesystem.RegisteredEachCovers | pySim/filesystem.py:334-347 | registering files lists each under all its services, forgets nothing, and lists no file under a service it does not name or that is none |
| Filesystem.ShouldExistMeans | pySim/filesystem.py:281-300 | a list of services asks for any of them, a tuple for all, and only a file without services is not decided |
| Filesystem.UnmentionedServiceIsIrrelevant | pySim/filesystem.py:281-300 | a service a file does not mention has no influence on whether it should exist |
| Filesystem.ToggledFileIsListed | pySim/filesystem.py:281-300 | if toggling a service changes whether a child or grandchild should exist, the directory lists that file under that service if and only if its service is not the number 0 |
| Filesystem.ServiceZeroIsNeverListed | pySim/filesystem.py:336-337 | the exception: a file for service number 0 is affected by it, and no directory lists it anywhere |
| Naming.Keyed | pySim/filesystem.py:420-422 | every file with an identifier can be looked up, and what is found has the identifier asked for |
| Naming.Selectables | pySim/filesystem.py:565-581 | whatever a file can select is a file of the tree; `Meanings.SelectablesMean` says which |
| Meanings.SelectablesMean | pySim/filesystem.py:178-235 | for every file of the tree and every key, which file is found, or that none is: from an EF the other files of its directory (lines 565-581), from a DF its children (lines 407-423), from the MF the applications once more (lines 479-501), each before applications, MF, the directories above, the highest first, and the file itself; names before FIDs and AIDs, the last added first |
| Meanings.DotsMean | pySim/filesystem.py:223-235 | from every file `.` is that file and `..` the directory above it, and above the MF there is none, if no application is identified by dots |
| Naming.MfIsSelectable | pySim/filesystem.py:229-234 | the MF is reached by name and by FID from every file, whatever overrides what |
| Naming.ChildKeysAreUnique | pySim/filesystem.py:419-422 | among its siblings a child is found under its own path element |
| Naming.AppKeysAreUnique | pySim/filesystem.py:493-501 | an application is found under its own path element |
| Naming.ChildIsSelectable | pySim/filesystem.py:407-423 | from its parent a file is selected by its own path element, against self, parents, MF, children and applications |
| Naming.SiblingIsSelectable | pySim/filesystem.py:565-581 | from an EF, every other file of its directory is selected by its own path element, whatever applications and directories above are called |
| Naming.SplitJoin | pySim/filesystem.py:111-111 | splitting a joined path at its slashes gives the elements back |
| Meanings.JoinedElements | pySim/filesystem.py:111-111 | joining puts a slash between elements, in their order |
| Meanings.PathElements | pySim/filesystem.py:113-126 | a fully qualified path has one element for each file from the MF down: its name if names are preferred and it has one, else the AID of an application (lines 539-543) or the FID |
| Naming.GetFileByName | pySim/runtime.py:260-294 | the lookup loop finds the file reached by selecting name after name, or nothing exactly if one of them cannot be selected; what each name means is `Meanings.SelectablesMean` |
| Meanings.ResolveDots | pySim/runtime.py:280-291 | in a path `..` goes up one directory and `.` stays |
| Meanings.AbsolutePath | pySim/runtime.py:266-273 | a path with a leading slash is looked up from the MF, wherever it is used; the list of any other is its elements (`Meanings.LeadingSlash`) |
| Naming.PathStringRoundTrip | pySim/filesystem.py:105-126 | from any directory, looking up the fully qualified path string of any attached file, with or without names, finds that file |
| Naming.PathListRoundTrip | pySim/filesystem.py:113-126 | the same for the list of elements, which holds no slash and no leading empty element |
| Correspondence.StepIsAnswered | pySim/runtime.py:412-425 | along a select path, a SELECT by FID that the card answers leads to the file pySim means, and it is answered if the card holds it and no bare application is in the way |
| Correspondence.PlaceIsInjective | pySim/runtime.py:358-366 | no two files have the same place on a card, so a channel in step with the card knows which file is selected |
| Correspondence.MissingFileIsAnswered | pySim/runtime.py:412-425 | where a known file is missing below a directory the card holds, the SELECT of `select_file` for it is accepted exactly if a directory beside that one has its FID, and then leads there |
| Correspondence.SelectPathIsAvailable | pySim/runtime.py:401-403 | if the card holds both ends of a select path, it holds all of it |
| Correspondence.ProbedFileIsChild | pySim/runtime.py:334-356 | on the card, an accepted FID leads to a child of the current directory exactly if the card holds that child; the step behind `Runtime.RuntimeLchan.ProbeFile` |
| Runtime.RuntimeLchan.GetCwd | pySim/runtime.py:236-245 | the current directory is a directory of the tree |
| Runtime.CwdIsCurrentDir | pySim/runtime.py:236-245 | on a synchronised channel it is the card's current directory |
| Runtime.RuntimeLchan.SelectOnCard | pySim/runtime.py:421-424 | one SELECT, by AID or FID, moves a synchronised card to the intended file or leaves it where it was, and fails on its own account only if the file is not there; inside a bare application no FID is answered |
| Runtime.RuntimeLchan.RunSelects | pySim/runtime.py:409-428 | wherever the loop over the path breaks off, the file and response handed on are those the card last accepted |
| Runtime.RuntimeLchan.WalkPath | pySim/runtime.py:409-430 | after the loop and `_select_post` the local picture is the card's, and the invariant holds that the selected application, if it offers no files and another does, is the selected file; a failing walk ends in a bare application exactly if it began in one or its first step was into one on the card |
| Runtime.RuntimeLchan.FsApp | pySim/runtime.py:395-398 | the search finds the application added first among those with a file system, and nothing exactly if there is none |
| Escape.PickIsFirstFs | pySim/runtime.py:395-398 | with unambiguous identifiers, the search over the MF's selectables in their order (pySim/filesystem.py:479-501) comes to that very application |
| Runtime.RuntimeLchan.Escape | pySim/runtime.py:395-398 | a bare application is left for the one picked exactly if that is on the card and nothing is refused; failing without a refusal, nothing has changed |
| Escape.EscapeIsNamedIff | pySim/runtime.py:395-398 | under the naming conventions, the application picked is selected by its name from every bare one exactly if no file in the latter is called so |
| Escape.EscapeRecursesIff | pySim/runtime.py:383-398 | before anything reaches the card, `select_file` and `select` call each other without end exactly if that name, which holds no slash, means a file that is no application |
| Runtime.RuntimeLchan.ProbeFile | pySim/runtime.py:317-342 | anything but four hex digits is rejected before the card is asked; a refusal changes nothing, and the card refuses on its own account only if it offers no such file; otherwise, from a directory on a synchronised channel, the card is at the child pySim enters if and only if it holds that child |
| Probing.ProbedFileIsBelowOrBeside | pySim/runtime.py:334-356 | an accepted FID that selects nothing from a directory leads to a child there if the card holds one, else to a directory beside it |
| Probing.BesideIsNotSelectable | pySim/filesystem.py:407-423 | from a directory, the FID of a known file beside it selects nothing |
| Probing.ProbeFromTelecom | pySim/runtime.py:463-467 | with `7f10` selected, selecting `7f20` probes for it: unless the card refuses, it is at `7f20`, a known file, and not below `7f10` |
| Probing.ProbeLeavesTheDirectory | pySim/runtime.py:317-356 | there is such a tree, card and session |
| Runtime.RuntimeLchan.SelectFile | pySim/runtime.py:375-430 | terminates for every pattern of refusals; returning, the file is selected, and `selected_adf` is it, the application picked to escape to, or as before; raising or returning, the local picture is the card's; on a synchronised channel, and for applications on any, it returns exactly if nothing is refused, the card offers the file, and the file is an application or no bare one is selected or the pick is on the card; raising without a refusal, a bare application is selected exactly if one was or the way to the file enters one (unless the pick is on the card) |
| Runtime.RuntimeLchan.SelectOne | pySim/runtime.py:459-472 | `select` of one name selects the file that name means from here, exactly under the condition of `SelectFile`; failing without a refusal it ends where it began, except that a bare application on the way to the target stays selected if it cannot be left: exactly then |
| Runtime.HexNamesFoldCase | pySim/runtime.py:460-461 | hexadecimal names are taken in lower case, so that case does not matter, and all others as they are |
| Runtime.RuntimeLchan.GoBack | pySim/runtime.py:468-470 | the way back after a failure keeps the picture true; without a refusal it arrives, unless from a bare application that cannot be left, which then stays selected |
| Runtime.RuntimeLchan.SelectEach | pySim/runtime.py:443-451 | the loop over a path string selects the file found by looking the names up one after the other; failing although the way was open, the card has refused; failing without a refusal, it stops in a bare application exactly where the way does |
| Runtime.RuntimeLchan.SelectAll | pySim/runtime.py:443-451 | the path as a whole is selected exactly if nothing is refused and every file on the way can be selected from the one before |
| Runtime.RuntimeLchan.Select | pySim/runtime.py:432-472 | for any string: on a synchronised channel it succeeds exactly if nothing is refused and every name means a file that can be selected from the one before; failing without a refusal it ends where it began, exactly unless the start is no application and the names stop in a bare application that cannot be left; terminates for every pattern of refusals |
| Runtime.RuntimeLchan.SelectUp | pySim/runtime.py:432-472 | `select('..')` selects the directory above, on a synchronised channel exactly if the card offers it and refuses nothing; from the MF it fails |
| Runtime.RuntimeLchan.Session | pySim/runtime.py:375-472 | in any run of `select` and `select_file` calls, with any refusals, whether calls return or raise, `selected_file` is where the card stands, and `selected_file_fcp_hex` is the response to the SELECT it last accepted, and None if that was empty or there was none; only an accepted probe ends such a run |
| Runtime.RuntimeState.Reset | pySim/runtime.py:140-160 | only the basic channel is left, wherever it was believed to be before; it ends synchronised at the MF and out of every application exactly if nothing is refused, unless a bare application was selected last and the one picked to leave it for is missing on the card |
| Leaving.EnterAndLeave | pySim/runtime.py:383-398 | there is such a tree, card and session: ISD-R is left for the MF under the same condition, and otherwise stays selected |
| Leaving.EnterAndReset | pySim/app.py:117-129 | in a tree with ISD-R and an application with files: after selecting ISD-R a reset works exactly if the card holds the other one and refuses nothing |
| Runtime.RuntimeState.AddLchan | pySim/runtime.py:199-207 | a used number raises; otherwise the new channel is synchronised, at the MF or in the opener's current directory, which is its selected file, with the opener's application (the check of the number is in lines 162-168) |
| Runtime.RuntimeState.constructor | pySim/runtime.py:45-57 | the basic channel exists at the MF, ready on any valid tree and matching card, and synchronised after power-up |
| DbiQuote.DbiBinaryQuote | pySim-prog.py:248-279 | lossless under its natural decoder; no 0 and no 39 in the output; the offset is allowed and no other escapes fewer bytes; the length is exactly 1 + n + escapes and at most 1 + n + 3n/254 (the empty input gives the single byte 0) |
| DbiQuote.BestOffset | pySim-prog.py:254-266 | the search, with its early exit, ends at an offset of minimal cost, never at 39 and never at 0 for non-empty input |
| DbiQuote.QuoteWith | pySim-prog.py:268-279 | the output loop writes the offset and the quoted bytes |
| DbiQuote.CountBytes | pySim-prog.py:249-252 | the counter holds the number of occurrences of every byte |
| DbiQuote.CostCounts | pySim-prog.py:260-261 | the sum of three counters is the number of bytes this offset has to escape |
| DbiQuote.UnquoteAfter | pySim-prog.py:271-277 | what was quoted reads back, whatever follows it |
| DbiQuote.QuotedBytesShape | pySim-prog.py:271-277 | quoted bytes hold no 0 and no 39 and are longer by the number of escapes |
| DbiQuote.ByteIsHitThrice | pySim-prog.py:257-261 | a byte is escaped by at most three of all offsets |
| DbiQuote.MinimumIsSmall | pySim-prog.py:254-266 | by averaging over all 254 offsets, the cheapest escapes at most 3 bytes in 254 |
| Commands.SimCardCommands.MaxCmdLen | pySim/commands.py:82-88 | 255 octets fit a command, less what a secure channel takes, and at least one |
| Commands.SimCardCommands.ReadBinary | pySim/commands.py:297-326 | chunked reading returns exactly the requested octets, or all from the offset on; it fails only for nothing to read, a range outside the file, or a refusal |
| Commands.SimCardCommands.WriteChunks | pySim/commands.py:370-385 | writing in chunks replaces exactly file[offset..offset+len); broken off, a whole number of chunks is written and nothing else changed |
| Commands.SimCardCommands.VerifyBinary | pySim/commands.py:328-339 | verification succeeds only if the file holds the data, and reports a difference only if there is one |
| Commands.SimCardCommands.UpdateBinary | pySim/commands.py:341-388 | for any contents, offset, data and chunk limit, conserving or not, readable or not: success leaves exactly the data at its place; it skips the write exactly when conserving and the data is there; failure leaves a chunk-aligned prefix; verification never fails after a successful write |
| Commands.SpliceHolds | pySim/commands.py:373-385 | what was written is what a read of the range returns, and every other octet is as before |
| Commands.SimCardCommands.UpdateAndRead | pySim/commands.py:297-388 | `read_binary` after `update_binary` returns the data, in every mode, exactly if it fits and nothing is refused |
| Commands.SimCardCommands.ReadRecord | pySim/commands.py:390-400 | a record read is the record stored |
| Commands.SimCardCommands.UpdateRecord | pySim/commands.py:415-466 | conserving or not, with `force_len` or without, the record becomes the data, at its start or its end with `ff` in all other places, or stays; whether it returns or raises, exactly; conserving skips the write exactly if the record starts with what would be sent |
| Commands.ForceLenTellsThemApart | pySim/commands.py:433-460 | conserving changes what is reported exactly if, with `force_len`, the data is a proper prefix of the record |
| BerTlv.TlvIsSelfDelimiting | pySim/commands.py:550-552 | a TLV object shows its own end: complete with its last octet and not before |
| BerTlv.TlvHolds | pySim/commands.py:550-551 | the object is its tag, its length and its value; a length below 128 is one octet, any other as few octets as it takes behind their number |
| BerTlv.FragmentsPartition | pySim/commands.py:554-562 | the fragments are the object in order, none empty or too long, all but the last as long as a command takes, the first alone marked first |
| BerTlv.SendObject | pySim/commands.py:554-562 | sending stores the object exactly if nothing is refused and it fits one fragment or the interim answer passes the status check |
| BerTlv.SetData | pySim/commands.py:533-562 | stored exactly if nothing is refused and the object fits one command or the card answers 9000 in between, and then octet by octet the tag, the length and the value; deleting for an empty value; a failure leaves all objects as they were |
| BerTlv.OneFragmentValues | pySim/commands.py:82-88 | without a secure channel the objects that fit are those with values of up to 252 octets |
| BerTlv.CollectBlocks | pySim/commands.py:513-520 | collecting blocks returns the whole object, for every block size if the interim answer passes the status check |
| BerTlv.RetrieveData | pySim/commands.py:503-520 | an object comes back exactly if the card holds it, refuses nothing and serves it in one block |
| BerTlv.SendAndCollect | pySim/commands.py:513-562 | the two loops together: an object of any length, in blocks of any size, comes back the same, exactly if nothing is refused and the interim answers needed pass the status check |
| BerTlv.SetAndRetrieve | pySim/commands.py:503-562 | `retrieve_data` after `set_data` returns the object with the value at its end, exactly if nothing is refused, it fits one command or the card answers 9000 in between, and the card serves it in one block |
| Sms.UdhRoundTrip | pySim/sms.py:52-60 | a freshly built header parses to its elements and exactly what follows |
| Sms.UdhIsBuilt | pySim/sms.py:59-60 | a header is built exactly if every length fits its octet, and counts the octets that follow |
| Sms.ParsedIes | pySim/sms.py:34-38 | the elements read from any header are its octets in order, up to what is no whole element |
| Sms.ParsedUdh | pySim/sms.py:52-57 | a header is read exactly if all the octets it counts are there, and what follows is left |
| Sms.AddressRoundTrip | pySim/sms.py:118-129 | an address of any digits, odd or even in number, survives, with exactly what follows |
| Sms.AddressLayout | pySim/sms.py:140-154 | an address of up to 255 digits, and no longer, is its count, its type with the top bit set and its digits, two to an octet, the last half filled with 15 if they are odd in number |
| Sms.ParsedAddress | pySim/sms.py:118-129 | an address is read from any octets that hold the digits counted, digit by digit, and what follows is left |
| Sms.AddressField.ToBytes | pySim/sms.py:140-154 | the octets of the address, and the filler digit it leaves in the object |
| Sms.SubmitFromBytes | pySim/sms.py:319-356 | the offset arithmetic reads the fields the layout puts there, for all four validity period formats |
| Sms.SubmitToBytes | pySim/sms.py:358-375 | the fields are written in the order of the layout |
| Sms.SubmitFlagBits | pySim/sms.py:303-305 | every flag of an SMS-SUBMIT in its bit, with the type 01 and the code of the validity period format |
| Sms.SubmitIsBuilt | pySim/sms.py:358-375 | an SMS-SUBMIT is built exactly if its address has at most 255 digits |
| Sms.SubmitRoundTrip | pySim/sms.py:319-375 | an SMS-SUBMIT survives building and parsing, for every validity period format |
| Sms.DeliverFromBytes | pySim/sms.py:186-205 | the fields of an SMS-DELIVER are read where the layout puts them |
| Sms.DeliverToBytes | pySim/sms.py:207-223 | and written there |
| Sms.DeliverFlagBits | pySim/sms.py:172-173 | every flag of an SMS-DELIVER in its bit, `tp_rp` in two and `tp_lp` in none, with the type 00 |
| Sms.DeliverRoundTrip | pySim/sms.py:186-223 | an SMS-DELIVER survives exactly if `tp_lp` is false; all other fields always do |
| Ota.Padding | pySim/ota.py:172-178 | padding makes whole blocks and is shorter than one |
| Ota.EncodeCmd | pySim/ota.py:338-403 | the step-by-step building of the packet gives the packet of the layout; it succeeds exactly if the checksum mode exists, the counter fits five octets and the packet, of a length given by that of the APDU, fits one short message; which of these fails decides the error |
| Ota.SpiRoundTrip | pySim/ota.py:64-75 | the security parameter indicator survives its two octets |
| Ota.SpiLayout | pySim/ota.py:64-75 | every field of the security parameter indicator in its bits |
| Ota.CommandLayout | pySim/ota.py:350-396 | CPL and CHL count what they have to, SPI, key indices, algorithms, TAR, counter and padding count stand in their places, the checksum covers the sent CPL and header and zeros up to a whole block, and the padding completes a block |
| Ota.PlainCommandLayout | pySim/ota.py:350-396 | the same for a packet in the clear, which has no padding and no CPL of its own, but whose checksum covers the CPL it would have |
| Ota.DecodeCmd | pySim/ota.py:405-446 | decoding step by step; of any octets, which error they raise or which TAR, SPI and APDU they give; with a cryptographic checksum exactly those are accepted that carry the checksum of all the rest |
| Ota.TamperedCommand | pySim/ota.py:424-432 | a ciphered packet with any octets in the place of the checksum is refused exactly if they are not the checksum |
| Ota.CommandRoundTrip | pySim/ota.py:338-446 | every ciphered packet that could be built decodes to its TAR, SPI and unpadded APDU, with CC and without |
| Ota.BodyRoundTrip | pySim/ota.py:419-446 | the checksum verifies and exactly the padding is removed |
| Ota.SignedStringIsInjective | pySim/ota.py:365-376 | the zero-padded string that is signed determines header, counter part and APDU |
| OtaResponse.DecodeResp | pySim/ota.py:449-500 | decoding step by step, with the ways it raises; what is accepted carries the checksum asked for, of the header and all of the packet but the checksum, or none if none was |
| OtaResponse.ResponseRoundTrip | pySim/ota.py:449-500 | plain or ciphered, with CC or without, every response of the standard's encoder decodes: the CC verifies, exactly the padding is removed, TAR, counter, status and data come back, and of a successful command the number of commands, the status word and the rest of the data |
| OtaResponse.TamperedResponse | pySim/ota.py:482-490 | a response with any eight octets in the place of the checksum, ciphered or not, is refused exactly if they are not the checksum |
| OtaResponse.UnaskedChecksum | pySim/ota.py:478-493 | a checksum that was not asked for is refused, and so is every response where anything but a cryptographic checksum or none was asked for |
| OtaResponse.HeaderOutcome | pySim/ota.py:457-461 | what comes before the packet must be a header of two octets with an empty response packet identifier; each way it is not decides the error |
| OtaResponse.PacketFields | pySim/ota.py:328-335 | the packets that are read are those that hold their fixed fields and the checksum their header length announces, field by field |
| OtaResponse.PaddingIsTaken | pySim/ota.py:465-475 | after deciphering the data loses as many octets as the padding counter says, at most all |
| OtaResponse.CipheredParses | pySim/ota.py:462-475 | parsing before deciphering sees the true lengths, and deciphering from octet 6 on restores the packet |
| OtaResponse.ChecksumOutcome | pySim/ota.py:477-490 | the octets the receiver checks are the octets the sender signed: the right checksum passes and no other; none passes where none was asked for |
| ServiceTable.DecodeBin | pySim/ts_31_102_telecom.py:49-60 | every service within the file is reported, with its bit |
| ServiceTable.ActiveBit | pySim/ts_31_102_telecom.py:43-57 | service s is bit (s - 1) mod 8, from the lowest, of octet (s - 1) / 8 |
| ServiceTable.EncodeBin | pySim/ts_31_102_telecom.py:62-82 | the shortest file that holds every service of the table, with exactly the activated ones set |
| ServiceTable.EncodeOfDecode | pySim/ts_31_102_telecom.py:49-82 | decoding a file and encoding the result gives the file back |
| ServiceTable.DecodeOfEncode | pySim/ts_31_102_telecom.py:49-82 | encoding a table and decoding it gives each stated service and reports all others inactive |
| ServiceTable.UstUpdate | pySim/ts_31_102_telecom.py:124-143 | raises exactly if a service lies beyond the file; else a service is active afterwards iff it is not deactivated and was active or is activated |
| Oid.ReadSubidentifier | osmo-smdpp.py:70-79 | the loop reads one base-128 number, or runs past the end |
| Oid.SubidentifierMeans | osmo-smdpp.py:70-79 | however it is encoded, a number ends with the first octet below 128, and its value is that of its base-128 digits; without such an octet reading fails |
| Oid.DecodeObjectIdentifier | osmo-smdpp.py:68-96 | the outer loop reads arcs up to the end offset |
| Oid.OidRoundTrip | osmo-smdpp.py:68-96 | an encoded identifier, anywhere in the data, decodes to its arcs of any size, also second arcs of 40 and more under arc 2, and exactly its octets are read |
| JavaCard.IjcToCap | pySim/javacard.py:29-41 | the loop terminates on every input and yields the components in turn, or raises at a truncated or unknown one |
| JavaCard.EntriesAreShaped | pySim/javacard.py:36-41 | each entry is named after its tag and holds the octets its size announces, high octet first; only the last may be shorter |
| JavaCard.SplitFails | pySim/javacard.py:38-41 | splitting fails exactly if what follows some whole components is a tag that does not exist, or less than a tag and a size |
| JavaCard.SplitLosesNothing | pySim/javacard.py:38-41 | the entries concatenate to the input |
| JavaCard.SplitOfFlatten | pySim/javacard.py:38-41 | whole components, concatenated, split into themselves |
| JavaCard.CapFile.GetLoadfile | pySim/javacard.py:99-117 | the load file is the components present, in load order |
| JavaCard.LoadOrderNames | pySim/javacard.py:80-117 | the components by name: the order in which they are joined, and those that must be there |
| JavaCard.LoadfileRoundTrip | pySim/javacard.py:99-117 | joining after splitting gives the file back byte for byte exactly if it carries each component once, in load order, without Debug |

## Left out

* The file object `probe_file` creates for an accepted FID: a run ends there, with the outcome `Discovered`.  Nor is `probe_file` with an EF selected followed, which fails in the code.
* Decoding of SELECT responses (`selected_file_fcp`) and of status words: the kept response itself is modelled.
* Failures other than a refused SELECT or an unknown name: the model knows no transport errors.
* Runtime.RuntimeLchan.FsApp: takes the applications in the order in which they were added; where identifiers are ambiguous, the source may come to another one first.
* Runtime.RuntimeLchan.Escape: needs the name of the application picked to mean that application where it is used (`EscapeIsNamed`), because the source selects it by name without looking.  Left aside are trees in which that name means a file that is no application, where the source recurses without end, and those in which it means nothing or another application.
* The flags of `get_selectables`, shell commands, logging and the opening of channels on the card itself.
* Filesystem.CardFile.AddFile: a directory's index is complete if the tree is built bottom-up; a file added to a directory already attached does not reach the index of the directory above.
* Commands.SimCardCommands.UpdateBinary: requires data; for none, the source fails after selecting the file.
* Empty responses to the SELECT before a transfer (the source returns nothing then), the returned echo of written data, and `expand_hex`, which is the identity on plain hex.
* BerTlv.SetData: requires room for two octets in a command, which every secure channel leaves; tags are one octet, as the source formats them.
* Status words are those the transport layer returns; its GET RESPONSE handling is not part of this model, nor are osmocom.utils and osmocom.tlv beyond `is_hex` and the encoding of BER lengths.
* Concrete DES, AES, CMAC and CRC: functions with the laws `Lawful` states.
* Ota.DecodeCmd: unciphered packets, which the source cannot tell from ciphered ones, and packets with RC, for which it raises.
* Expanded remote responses, and the HTTP, USSD and cell broadcast dialects.
* Sms.AddressField.ToBytes: models one serialisation per object for the round trip; a second one of an odd number of digits would include the filler digit left by the first.
* Hex-string inputs of the SMS parsers, and the translation to and from SMPP.
* ServiceTable.UstUpdate: reading and writing the file around it; the attempt to extend a short file, which raises.
* Descriptions in decoded service tables, `ust_service_check`, and keys that are not positive numbers.
* Oid.DecodeObjectIdentifier: returns arcs and the final offset, not the dotted string.
* Reading and writing ZIP archives, the contents of CAP components, and the installation parameters of `pySim/javacard.py`.
* The HTTP endpoints, X.509, key agreement and session store of `osmo-smdpp.py`, and the declarative file and TLV tables.
