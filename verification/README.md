# Harpia: a verified model of its delivery, schema and generation core

Harpia compiles a message DSL into code, database schemas and runtimes. This project models
the parts of it that carry a guarantee over an unbounded domain, and proves those guarantees.

| file | modules | what it models |
|---|---|---|
| `Crc32.dfy` | `ShiftRegister`, `Crc32` | the table-driven CRC-32 of the delivery runtime (reflected, as in clause 3.2.9 of IEEE 802.3), against bit-serial division |
| `Delivery.dfy` | `OrderedDelivery`, `Delivery` | envelopes stamped at origin, the bounded rotating queue, the sender's drain loop and the arrival check, as one protocol |
| `Sidecar.dfy` | `Sidecar` | the text of the wire-number sidecar: rendering, parsing, round trip |
| `FieldMap.dfy` | `WireNumbers`, `FieldMap` | freezing wire numbers, over every history of schema generations |
| `Columns.dfy` | `Columns` | nested messages as flat rows with presence columns, written and read back |
| `ChildTables.dfy` | `ChildTables` | map and repeated fields as child tables, through any run of create, update and remove |
| `EventChannel.dfy` | `EventChannel` | subscribe, unsubscribe, publish and detached dispatch, under every interleaving |
| `Imports.dfy` | `Imports` | the transitive closure of imports, with cycle detection |
| `Migration.dfy` | `Migration` | renames, additions and drops that bring a live table to the current schema |
| `Regeneration.dfy` | `Regeneration` | pruning and atomic write-if-different, with a crash after any file-system change |
| `Characters.dfy`, `Sorting.dfy`, `Tally.dfy`, `Wrappers.dfy` | `Characters`, `Sorting`, `Tally`, `Wrappers` | characters and line ends, sets in ascending order, sums over sequences, `Option` |

## How the model is built

Code that changes things step by step is a class or a method with loops, and each such method is
proved against a specification function or relation; the theorems are about that specification.
Protocols are transition relations or step functions, and a run is a sequence of states, so a
theorem over runs covers every interleaving and every crash point. The checksum argument is
made over an abstract shift register and instantiated with 32-bit words, so that bit-vector
reasoning is confined to facts about one word.

Where the code falls short of what its documentation promises, the model follows the code. A
lemma exhibits the failing input, and another states when the promise is kept:

- Two fields can share a wire number (`FieldMap.RedeclaredSource`, `FieldMap.LegacySpellingCollides`),
  exactly when two fields of a generation have the same source or identity
  (`WireNumbers.SafeGenerationIff`); the reserved-number guard notices only two generations
  later (`FieldMap.CollisionSurfacesLate`).
- Updating an owner that has no row leaves orphaned child rows unless there is nothing to write
  (`ChildTables.UpdateRefinesIff`), and a later create then fails half way
  (`ChildTables.CreateAfterOrphans`). The tables keep in step with what was written through a
  whole run exactly when none of its updates is of that kind (`ChildTables.RunRefinesIff`).
- A migration loses data, or the key, when a column can be renamed from one that is still
  declared (`Migration.RedeclaredNameLosesItsData`, `Migration.KeyRenamedAway`), and exactly then
  (`Migration.OwnDataKeptIff`, `Migration.KeyKeptIff`). `Migration.KeepsDataIff` says for which
  schemas the whole promise about data holds on every live table.
- A rendered text with a carriage return is rewritten by every run
  (`Regeneration.OwnOutputUpToDateIff`), because the comparison reads in text mode.
- An output named like the temporary file of an earlier output can be left torn
  (`Regeneration.TempNamedOutputTorn`); `Regeneration.NeverTornIff` says exactly which files can.

Two hypotheses restrict no schema that can be used. The columns of a row have different names,
since no table has two columns of one name; a field `a_b` beside an embedded `a` with a field
`b` asks for just that (`Columns.PrefixedNamesCollide`). And the field accessors of one message
differ (`Columns.ValidFields`), as protobuf demands of the names in lower case.

## Model

| member | source | states |
|---|---|---|
| ShiftRegister.FeedIsShift | Compliance/runtime/harpia_delivery.h:58-68 | feeding n message bits one at a time equals xoring them in at once and shifting n times, for any linear divider |
| ShiftRegister.FeedByTable | Compliance/runtime/harpia_delivery.h:67-68 | n bits fed serially equal one table entry, indexed by the low bits, xored with the high bits moved down, up to what the input has above bit n |
| ShiftRegister.TableEntry | Compliance/runtime/harpia_delivery.h:59-62 | the inner loop computes the given number of division steps of the index |
| ShiftRegister.BuildTable | Compliance/runtime/harpia_delivery.h:56-65 | the table built holds the division steps of every index |
| ShiftRegister.WindowInjective | Compliance/runtime/harpia_delivery.h:55-70 | two windows of at most 32 bits that lead to one register from one register are the same window |
| ShiftRegister.BurstChangesRegister | Compliance/runtime/harpia_delivery.h:55-70 | messages that differ only within 32 bits and leave the same register are equal |
| Crc32.ByteStep | Compliance/runtime/harpia_delivery.h:68 | the byte step through the table equals eight bit-serial steps of division by 0xEDB88320 |
| Crc32.LookUp | Compliance/runtime/harpia_delivery.h:68 | one table look-up advances the register by the eight bits of a byte |
| Crc32.Absorb | Compliance/runtime/harpia_delivery.h:67-68 | the byte loop advances the register by all bits of the message, from any register |
| Crc32.TableChecksum | Compliance/runtime/harpia_delivery.h:55-70 | the shipped table-driven form computes the bit-serial checksum for every byte string |
| Crc32.ChecksumOfNothing | Compliance/runtime/harpia_delivery.h:66-69 | the empty payload has the checksum 0 |
| Crc32.LeadingZeroDetected | Compliance/runtime/harpia_delivery.h:66-69 | a zero byte in front changes the checksum of every payload |
| Crc32.Residue | Compliance/runtime/harpia_delivery.h:55-70 | every payload with its own checksum behind it, low byte first, has the checksum 0x2144DF1C |
| Crc32.BurstDetected | Compliance/runtime/harpia_delivery.h:55-70 | different payloads of one length whose bits differ only inside 32 consecutive bits, aligned or not, have different checksums |
| Crc32.FourByteBurstDetected | Compliance/runtime/harpia_delivery.h:55-70 | any change confined to four consecutive bytes changes the checksum |
| Crc32.BurstLimitIsSharp | Compliance/runtime/harpia_delivery.h:55-70 | 32 is the exact limit: every window of 33 bits and the one with 0xEDB88320 added to it leave the same register, whatever surrounds them |
| Delivery.StampAtOrigin | Compliance/runtime/harpia_delivery.h:86-94 | the stamped envelope carries the number, payload, time and the bit-serial checksum of the payload |
| Delivery.CheckArrival | Compliance/runtime/harpia_delivery.h:112-117 | the check through the table gives the specified outcome, checksum first, then number |
| Delivery.StampArrives | Compliance/runtime/harpia_delivery.h:86-117 | a stamped envelope is in order exactly at its own number, a gap below it and a repetition above |
| Delivery.WrongChecksumArrives | Compliance/runtime/harpia_delivery.h:98-117 | an envelope is a CRC mismatch if and only if its checksum is not that of its payload |
| Delivery.BurstIsRejected | Compliance/runtime/harpia_delivery.h:86-117 | any burst of up to 32 bits in the payload of a stamped envelope is a CRC mismatch whatever number is expected; an undamaged one never is |
| OrderedDelivery.ReceiverSafety | Compliance/runtime/harpia_delivery.h:101-117 | on any wire the accepted numbers strictly increase, and accepted plus summed gaps equals expected minus start |
| OrderedDelivery.AcceptedInSendingOrder | Compliance/runtime/harpia_delivery.h:101-117 | what is both sent and accepted is accepted in the order of sending |
| Delivery.OnlySentIsAccepted | Compliance/runtime/harpia_delivery.h:55-117 | over a wire that loses, repeats, reorders and damages by bursts, only sent envelopes are accepted, undamaged, at most once and in order |
| Delivery.BoundedQueue.constructor | Compliance/runtime/harpia_delivery.h:133-139 | an empty queue whose capacity is at least one |
| Delivery.BoundedQueue.PushEnvelope | Compliance/runtime/harpia_delivery.h:141-153 | the new state is the specified push: at capacity the oldest goes, is counted, remembered and audited |
| OrderedDelivery.RotatesWhenFull | Compliance/runtime/harpia_delivery.h:141-153 | a push rotates, counts and audits exactly when the queue is full, and the queue then holds the newest envelopes up to its capacity |
| Delivery.BoundedQueue.Pop | Compliance/runtime/harpia_delivery.h:156-161 | oldest first, nothing when empty, and nothing else changes |
| Delivery.BoundedQueue.Flush | ZmqAdapter/templates/sender_critical.tmpl:50-60 | what the drain loop sends is a prefix of the queue, removed from it; it stops at the first refusal and at nothing else |
| OrderedDelivery.AccountedStep | Compliance/runtime/harpia_delivery.h:141-169 | every push, accepted send and failed send keeps the account of pushed, sent, rotated and buffered |
| OrderedDelivery.RunAccounted | Compliance/runtime/harpia_delivery.h:131-184 | after any run the buffer is a suffix of what was pushed, pushed equals sent plus rotated plus buffered, and the audit lists the rotated numbers |
| OrderedDelivery.InOrderIsAccepted | Compliance/runtime/harpia_delivery.h:112-117 | an undamaged stream in increasing order is accepted whole, with the gaps it has |
| OrderedDelivery.LossAccounting | Compliance/runtime/harpia_delivery.h:112-184 | end to end: all that is sent is accepted, no regression is ever reported, and the receiver's gaps are the rotations, all of them once the queue is drained |
| Sidecar.LoadOfSaved | Message/FieldMap.py:53-83 | loading a saved text returns the same numbers and reserved set, for all identifiers and naturals |
| Sidecar.WrittenLoads | Message/FieldMap.py:53-83 | saved over any file, also one with other line ends that is left as it is, the text loads the same |
| Sidecar.TextUnique | Message/FieldMap.py:75-83 | with distinct numbers a registry has exactly one text |
| Sorting.SortNumbers | Message/FieldMap.py:79-80 | the reserved numbers in ascending order, each once |
| Sidecar.SortEntries | Message/FieldMap.py:76-77 | the entries of the map in ascending order of number, each once |
| Sidecar.Save | Message/FieldMap.py:75-83 | the text written is a text of the registry |
| Sidecar.FieldLineIff | Message/FieldMap.py:61-71 | a line gives a field its number if and only if, but for space around it, it is an identifier, a colon and a numeral |
| Sidecar.ReservedSpaced | Message/FieldMap.py:21 | the list of retired numbers follows "#" and "reserved:" with any space between them |
| Sidecar.ListToken | Message/FieldMap.py:66-67 | empty places in the list are passed over, space around a number too, and anything but a numeral is an error |
| Sidecar.LastLine | Message/FieldMap.py:60-72 | one more line replaces the number of its field or adds to the retired ones, and an error ends the reading |
| Sidecar.NoLeadingZero | Message/FieldMap.py:76-80 | the numeral of a positive number does not start with a zero |
| Sidecar.SampleField | Message/FieldMap.py:76 | the line of a field, character by character |
| Sidecar.SampleReserved | Message/FieldMap.py:78-81 | the line of the retired numbers, character by character |
| FieldMap.LoadSidecar | Message/FieldMap.py:53-72 | reading line by line gives the registry the text stands for, empty without a file, an error for a bad reserved number |
| FieldMap.LegacySpellingCollides | Message/FieldMap.py:34-41 | a user field spelled `ID_...` has the identity of the hidden key |
| FieldMap.IdentityIff | Message/FieldMap.py:30-41 | the key of a name is ID, STATUS, ERROR or ORIGINATOR exactly when the name spells that hidden field, in its present or a legacy form, and else the name itself |
| FieldMap.SameIdentityIff | Message/FieldMap.py:34-41 | two names have one key if and only if they are equal or spell one hidden field |
| FieldMap.InheritRenamed | Message/FieldMap.py:104-107 | exactly the fields renamed from a live name are resolved, with its number |
| FieldMap.Inherit | Message/FieldMap.py:104-116 | after renames and keeps, exactly the fields with a source have a number, that of their source, and the sources are consumed |
| FieldMap.NextFree | Message/FieldMap.py:125-126 | counting up stops at the first number that is not taken |
| FieldMap.NumberNewFields | Message/FieldMap.py:118-128 | every field without a source gets the next number above all taken ones, in declaration order |
| FieldMap.FindReserved | Message/FieldMap.py:133-139 | the guard fires exactly when a resolved number is reserved |
| FieldMap.Retire | Message/FieldMap.py:143-145 | the numbers of live names without heir, and only those, become reserved |
| FieldMap.Record | Message/FieldMap.py:150 | the new registry entries, a later field winning over an earlier one of the same identity |
| WireNumbers.LastIsRecorded | Message/FieldMap.py:150 | of the fields with one identity the last one is recorded |
| FieldMap.Generate | Message/FieldMap.py:93-150 | the loops together compute the declarative numbering and the next registry, or the error |
| FieldMap.AssignIndices | Message/FieldMap.py:147-148 | every variable gets its resolved number |
| FieldMap.SaveSidecar | Message/FieldMap.py:75-83 | the file is left as it is when it reads like the registry's text, else replaced by it |
| FieldMap.FreezeVariables | Message/FieldMap.py:86-152 | one generation in place, from file to file; on an error neither a variable nor the file changes; well-named variables over consistent numbers end with distinct indices |
| FieldMap.DistinctKeysIff | Message/FieldMap.py:34-41 | the variables have distinct keys if and only if no two names are equal or spell one hidden field |
| FieldMap.WellNamedIff | Message/FieldMap.py:93-116 | the schema is well-formed if and only if, in terms of names and renamed_from alone, names name different fields, sources differ and none is the key of another field |
| FieldMap.WellNamedNumbers | Message/FieldMap.py:93-139 | well-named variables get distinct numbers without an error over any consistent sidecar |
| FieldMap.VariableNumber | Message/FieldMap.py:96-128 | a variable gets the number of the live name it is renamed from, else of its live key, else one above all numbers ever given out, the later the higher |
| FieldMap.DeclaredLoads | Message/FieldMap.py:34-151 | for variables named by identifiers the file saved for a generation loads to its registry, whatever file it was saved over |
| WireNumbers.WellFormedIsOk | Message/FieldMap.py:104-116 | a well-formed schema step is safe from any registry |
| WireNumbers.DistinctNumbersIff | Message/FieldMap.py:104-128 | the fields get distinct numbers if and only if no two have the same source |
| WireNumbers.SafeGenerationIff | Message/FieldMap.py:104-151 | distinct numbers, all recorded, if and only if no two fields share an identity or a source |
| WireNumbers.GuardUnreachable | Message/FieldMap.py:118-139 | the reserved-number error cannot occur while live and reserved numbers are disjoint |
| WireNumbers.StepPartition | Message/FieldMap.py:118-151 | a safe step keeps live and reserved numbers disjoint and together exactly 1..N, N growing by the number of new fields |
| WireNumbers.NumbersConserved | Message/FieldMap.py:86-152 | after any run from an empty sidecar live and reserved numbers partition 1..N, N never decreases, and no step fails |
| WireNumbers.NumberPasses | Message/FieldMap.py:104-116 | over one step a number passes from one name to another if and only if the second is the heir of the first |
| WireNumbers.WireCompatibility | Message/FieldMap.py:86-152 | for any generations i and j of any run, two live fields have the same number if and only if an unbroken chain of keeps and renames links them |
| WireNumbers.LineageEnded | Message/FieldMap.py:141-145 | a number whose chain has ended is reserved |
| WireNumbers.RetiredStaysRetired | Message/FieldMap.py:130-145 | a reserved number stays reserved and is never live again |
| WireNumbers.TakenForever | Message/FieldMap.py:118-151 | a number once given out is live or reserved ever after |
| WireNumbers.NumbersDistinct | Message/FieldMap.py:86-152 | in every generation of a run no two fields share a number and all are recorded |
| WireNumbers.RegenerationStable | Message/FieldMap.py:86-152 | freezing the same well-formed schema again gives every field its number and the same registry |
| FieldMap.TextRunFollowsRun | Message/FieldMap.py:53-151 | saving and loading between all generations of a run changes nothing |
| FieldMap.RegenerationSameText | Message/FieldMap.py:75-151 | regenerating from a saved sidecar leaves it the same, byte for byte |
| FieldMap.RedeclaredSource | Message/FieldMap.py:104-116 | `b renamed_from[a]` beside a re-declared live `a` gives both the number of `a` |
| FieldMap.CollisionSurfacesLate | Message/FieldMap.py:133-145 | after a shared number, dropping one name retires the other's number and the generation after fails |
| Columns.Flatten | Database/model.py:340-432 | the loop with recursion builds the specified columns: presence column first, hidden fields skipped, names and paths compounded |
| Columns.NoColumnIff | Database/model.py:276-301 | a field of an embedded message has no column if and only if it has none anywhere or its name is "HARPIA_" and anything |
| Columns.ColumnsAreChains | Database/model.py:340-432 | the columns are exactly those at the ends of the chains of fields: names joined by underscores, HARPIA_HAS_ before those of embedded messages, the path the accessors on the way |
| Columns.ColumnsInOrder | Database/model.py:370-431 | a field has its columns after those of the fields before it |
| Columns.OwnColumnFirst | Database/model.py:363-369 | the presence column of an embedded message comes before the columns below it |
| Columns.ExtractRow | Database/CrudlAdapter.py:443-492 | running the emitted statements in order gives the specified message |
| Columns.ExtractIsDenote | Database/CrudlAdapter.py:443-492 | for every row, the flat guarded statements compute the recursive reading: a value is restored exactly when no enclosing presence column is stored 0, NULL reading as present |
| Columns.ExtractReads | Database/CrudlAdapter.py:443-492 | along every chain of fields and for every row, an embedded message is set unless its presence cell is stored 0, and a field below set ones holds its cell, or for NULL its zero or, if optional, nothing |
| Columns.PresenceCoverage | Database/model.py:362-369 | every embedded column has a presence column for every non-empty prefix of its path |
| Columns.BindAgrees | Database/CrudlAdapter.py:358-375 | with distinct names every column of the row holds exactly what its own bind expression stores |
| Columns.SetIsBound | Database/CrudlAdapter.py:358-375 | a value in a set message is bound as it is, a set embedded message as 1 |
| Columns.UnsetIsBound | Database/CrudlAdapter.py:358-375 | a field without a value is bound as its zero, as NULL if it is optional or its message is not set, an embedded message that is not set as 0 |
| Columns.FlattenRoundTrip | Database/CrudlAdapter.py:358-492 | binding and extracting gives back everything that has a column, at every depth, with the same optional fields and embedded messages set |
| Columns.FlattenIdentity | Database/model.py:340-528 | for a message whose content all has columns the round trip is the identity |
| Columns.WholeIff | Database/model.py:340-528 | every message of a type comes back whole if and only if no field of an embedded message, at any depth, is spelt "HARPIA_" and anything |
| Columns.PrefixedNamesCollide | Database/model.py:373 | a field `a_b` beside an embedded `a` with a field `b` makes two columns of one name |
| ChildTables.Dao.WriteEntries | Database/CrudlAdapter.py:597-625 | one row per entry; fails exactly when one of them exists; no other owner's row changes |
| ChildTables.Dao.WriteItems | Database/CrudlAdapter.py:653-696 | one row per element with ordinals from 0; fails exactly when one exists; no other owner's row changes |
| ChildTables.Dao.CreateRow | Database/templates/crudl.h.tmpl:42-47 | a create is a step of the specified relation, including how it fails |
| ChildTables.Dao.UpdateRow | Database/templates/crudl.h.tmpl:57-62 | an update is a step of the specified relation: child rows replaced whether or not the owner exists |
| ChildTables.Dao.RemoveRow | Database/CrudlAdapter.py:582-589 | a remove is a step of the specified relation: the owner and all its child rows go |
| ChildTables.Dao.ReadEntries | Database/CrudlAdapter.py:627-651 | the map read is exactly the owner's rows |
| ChildTables.Dao.ReadItems | Database/CrudlAdapter.py:764-802 | the list read is exactly the list the rows were written from, in order |
| ChildTables.OthersUntouched | Database/CrudlAdapter.py:582-696 | no operation changes a row of another owner |
| ChildTables.RunRefines | Database/CrudlAdapter.py:582-802 | through any run of creates, removes and updates that find their owner or have nothing to write, each owner's rows are exactly what was last written, and none after a remove |
| ChildTables.RunRefinesIff | Database/CrudlAdapter.py:582-802 | the tables hold what was last written at every point of a run if and only if all its updates are of that kind |
| ChildTables.AnswersInRun | Database/templates/crudl.h.tmpl:42-69 | in a run with such updates a create is refused exactly when something is written for its owner, and nothing else is refused |
| ChildTables.UpdateRefinesIff | Database/templates/crudl.h.tmpl:57-62 | an update keeps the tables in step if and only if its owner exists or there is nothing to write |
| ChildTables.CreateAfterOrphans | Database/templates/crudl.h.tmpl:42-47 | after an update of a missing owner a create with elements fails and leaves the owner's row behind |
| EventChannel.Channel.Subscribe | Callback/runtime/harpia_event_cache.h:131-153 | a new id, the callback last in order, and the replay owed |
| EventChannel.Channel.Unsubscribe | Callback/runtime/harpia_event_cache.h:158-166 | the subscription with that id is gone, an unknown id changes nothing |
| EventChannel.Channel.Publish | Callback/runtime/harpia_event_cache.h:172-192 | the value retained on a cached channel, and one delivery for every subscriber in order |
| EventChannel.Dispatch | Callback/runtime/harpia_event_cache.h:212-228 | every callback of the snapshot runs, in order, whichever throw; one audit record per throw |
| EventChannel.ExactDelivery | Callback/runtime/harpia_event_cache.h:131-192 | under every interleaving a subscription is scheduled exactly its replay and one delivery per publish while it lasts |
| EventChannel.RunConserved | Callback/runtime/harpia_event_cache.h:131-228 | at any point each scheduled delivery is waiting, in a thread or has run, none lost or doubled |
| EventChannel.RunInOrder | Callback/runtime/harpia_event_cache.h:172-192 | every dispatch's snapshot has strictly increasing ids |
| EventChannel.RunSequential | Callback/runtime/harpia_event_cache.h:212-228 | what a thread has run is a prefix of its snapshot, in order |
| EventChannel.RunAudited | Callback/runtime/harpia_event_cache.h:184-187 | at any point the audit holds one dispatch record per publish past its audit point and one exception record per throw |
| EventChannel.RunThrows | Callback/runtime/harpia_event_cache.h:217-225 | the invocations recorded as throwing are as many as the callbacks that threw |
| EventChannel.CompletedRun | Callback/runtime/harpia_event_cache.h:172-228 | in a completed run every delivery ran as often as scheduled, every dispatch ran its whole snapshot in order, and the audit totals are the publishes and the throws |
| EventChannel.ExactlyRun | Callback/runtime/harpia_event_cache.h:131-228 | in a completed run the callbacks that ran for a subscription are exactly its replay and one delivery per publish while it lasted |
| EventChannel.AdvanceLowersWork | Callback/runtime/harpia_event_cache.h:191-228 | each launch of a waiting call and each callback of an unfinished thread leaves one less to do |
| EventChannel.CanComplete | Callback/runtime/harpia_event_cache.h:172-228 | from every point of every run launches and callbacks alone lead to a completed run, with any choice of the callbacks that throw |
| EventChannel.DeliveredInTheEnd | Callback/runtime/harpia_event_cache.h:131-228 | after any history of calls such a completion has called each subscription exactly with what it is owed |
| Imports.Visit | LexicalAnalizer/pre_lex.py:200-221 | the recursion ends on every finite graph, cyclic or not, and only extends order and done |
| Imports.Resolver.VisitFile | LexicalAnalizer/pre_lex.py:200-221 | the mutating visit computes the specified result and leaves the specified state |
| Imports.ResolveImports | LexicalAnalizer/pre_lex.py:186-227 | the order of the whole resolution, or its failure |
| Imports.ResolutionIsRight | LexicalAnalizer/pre_lex.py:186-227 | on success each file is listed once, reachable and after all it imports, every root included; a failure names a real cycle or a real error |
| Imports.ClosureIsExact | LexicalAnalyzer/pre_lex.py:187-195 | when the reachable files are the same under all their paths, the files listed are exactly the resolved files reachable from the roots |
| Imports.NoCycleWhenFinished | LexicalAnalyzer/pre_lex.py:204-208 | a finished resolution proves the reachable graph acyclic |
| Imports.FinishedIff | LexicalAnalyzer/pre_lex.py:195-227 | the call succeeds if and only if every reachable path pre-lexes and the reachable files have no cycle |
| Imports.CycleReportedIff | LexicalAnalyzer/pre_lex.py:195-208 | an import cycle is reported only where there is one, and when every reachable path pre-lexes exactly where there is one |
| Imports.LeavesKeepOrder | LexicalAnalizer/pre_lex.py:193-194 | files that import nothing keep their import order |
| Imports.OrderIsPostorder | LexicalAnalyzer/pre_lex.py:190-220 | every listed file has a trail of import indices from the roots, and one file comes before another if and only if its trail goes on from the other's or branches off at a smaller index |
| Imports.TrailsAreFirst | LexicalAnalyzer/pre_lex.py:190-220 | these trails are the first ones: every trail to a file is the listed one or one that the listed one branches off before |
| Imports.FirstFailure | LexicalAnalyzer/pre_lex.py:214-226 | paths are followed one after the other and the first failure is the answer |
| Migration.OneSpelling | Database/MigrationAdapter.py:64-72 | a name is a legacy spelling of at most one hidden column |
| Migration.SpellingsIff | Database/model.py:283-288 | the legacy spellings are ID_, STATUS_, ERROR_ or ORIGINATOR_ and 32 hash characters, or ORIGINATOR alone |
| Migration.LessIff | Database/MigrationAdapter.py:74-83 | the walk over the live names is in lexicographic order |
| Migration.LiveTable.RenameLegacy | Database/MigrationAdapter.py:74-83 | walking the columns in order renames the least legacy spelling when the new name is absent |
| Migration.LiveTable.Run | Database/MigrationAdapter.py:123-167 | legacy renames, renames, additions and drops in place give the specified table |
| Migration.LiveTable.DropColumns | Database/templates/migrate.h.tmpl:112-123 | exactly the known columns the schema does not declare are dropped |
| Migration.MigratedKeys | Database/MigrationAdapter.py:141-157 | no other columns remain, and the current set is reached if and only if every key column is there after the renames |
| Migration.Converges | Database/MigrationAdapter.py:5-24 | a table with its key, under its own or a legacy name, ends with exactly the current columns when the schema takes no column from the key |
| Migration.AlwaysConvergesIff | Database/MigrationAdapter.py:5-24 | every table with its key reaches the current columns if and only if the schema takes no column from the key |
| Migration.ConvergedOnce | Database/MigrationAdapter.py:5-24 | after a run that reached the current columns a second run changes nothing, for any schema |
| Migration.LegacyAtOnce | Database/MigrationAdapter.py:74-83 | the legacy renames made in turn are one simultaneous rename |
| Migration.RenameAtOnce | Database/MigrationAdapter.py:48-51 | the renamed_from renames made in turn are one simultaneous rename |
| Migration.KeepsData | Database/MigrationAdapter.py:44-83 | each column ends with its own old data, else its legacy data, else its renamed_from data, else NULL; only a key without any of them is missing |
| Migration.LegacyDataMoves | Database/MigrationAdapter.py:64-83 | a hidden column that is not live takes over the data of its least legacy spelling |
| Migration.KeepsDataIff | Database/MigrationAdapter.py:44-83 | on every table each column ends with its own, legacy or renamed_from data or NULL, if and only if no column can be renamed from another declared one and no two compete for one source |
| Migration.OwnDataKeptIff | Database/MigrationAdapter.py:44-83 | every table keeps the data of its declared columns if and only if no column can be renamed from another declared one |
| Migration.KeyKeptIff | Database/MigrationAdapter.py:48-83 | every table that has the key keeps it if and only if no column can be renamed from the key |
| Migration.SourcesDiffer | Database/MigrationAdapter.py:48-83 | no two columns take over the same data |
| Migration.ConvergesIff | Database/MigrationAdapter.py:123-157 | the current columns are reached if and only if every key has a source in the live table |
| Migration.Idempotent | Database/MigrationAdapter.py:44-83 | a second run changes nothing, even when the first did not find every key |
| Migration.RedeclaredNameLosesItsData | Database/MigrationAdapter.py:48-51 | any two columns, one renamed from the other, lose the data of that other on some table |
| Migration.KeyRenamedAway | Database/MigrationAdapter.py:141-147 | any column renamed from the key removes the key column for good |
| Regeneration.LastSplit | Util/util.py:19 | the greedy match: the longest name followed by an underscore and a hash |
| Regeneration.PrunedIff | Util/util.py:19-195 | an output named after a message and a hash is kept if and only if the hash is the current one and the name is that of a message, app or capabilities |
| Regeneration.OthersStay | Util/util.py:19-195 | a file whose name has no underscore with 32 hash characters behind it is never pruned |
| Regeneration.TempNameIff | Util/util.py:125 | a temporary file lies beside its destination, under a dot, its name, a dot and eight characters |
| Regeneration.TempNotStale | Util/util.py:125 | a temporary file is never pruned and never its own destination |
| Characters.Newlines | Util/util.py:143-144 | reading in text mode leaves no carriage return, and changes a text if and only if it has one |
| Characters.LineEndsRead | Util/util.py:143-144 | whichever of the three line ends a file is written with, it reads as the text |
| Regeneration.OwnOutputUpToDateIff | Util/util.py:137-161 | a job finds its own output up to date if and only if it is a copy or a text without carriage return |
| Regeneration.StartOver | Util/util.py:137-161 | starting the writes over from wherever they stopped leads to the same content |
| Regeneration.Generator.Prune | Util/util.py:178-195 | exactly the stale files are removed |
| Regeneration.Generator.FreeName | Util/util.py:125 | a name of the temporary shape that is free, or none of the drawn ones is |
| Regeneration.Generator.AtomicReplace | Util/util.py:113-134 | the file is replaced whole, or on an error nothing but a temporary file differs; every change on the way is a step of the run |
| Regeneration.Generator.WriteIfDifferent | Util/util.py:137-151 | untouched exactly when the text read equals the content, else replaced whole or failed |
| Regeneration.Generator.CopyIfDifferent | Util/util.py:154-161 | untouched exactly when the bytes are equal, else replaced whole or failed |
| Regeneration.Generator.Regenerate | Util/util.py:113-195 | a whole run is a complete or an interrupted run of the transition relation, and a complete one leaves the specified tree |
| Regeneration.NeverTorn | Util/util.py:113-134 | after any prefix of any run every file that cannot tear holds all its old content, all of some job's content, or is gone because stale |
| Regeneration.NeverTornIff | Util/util.py:113-134 | a file is whole wherever any run stops if and only if it cannot be the temporary file of a job that writes before all jobs on it, with a part that is no job's content for it |
| Regeneration.FreeNamesWhenFew | Util/util.py:125 | with fewer than 10^8 outputs each has a temporary name that is no output, as the direction that tears needs |
| Regeneration.TempNamedOutputTorn | Util/util.py:125 | an output named like the temporary file of the one before it can be left empty |
| Regeneration.InterruptedOutcome | Util/util.py:113-195 | an interrupted run does not change what a complete run will leave |
| Regeneration.Recovery | Util/util.py:113-195 | any number of interrupted runs and a complete one leave the same tree, files that can tear aside, as one complete run |
| Regeneration.CompletedTree | Util/util.py:137-161 | after a complete run the last job on a file decides its content |
| Regeneration.CompletedElsewhere | Util/util.py:178-195 | a file no job writes is gone if stale and unchanged if not |
| Regeneration.RegenerationTouchesNothing | Util/util.py:137-161 | after a complete run the same outputs are regenerated without changing any file |

## Left out

- Counters are unbounded: the wrap-around of 64-bit sequence numbers, ids and rotation counts is not modelled.
- The one-slot mailbox of the delivery runtime, which keeps only the latest value and counts what it replaced, is not modelled.
- Sequence number, checksum and time in an envelope are not covered by its checksum, and damage to them is not modelled.
- Audit records are modelled by their kind, or by the dropped number; their text, the clock and the choice of sink are not.
- The transport is foreign code: its answers are a parameter of the drain loop.
- Unicode in `\w`, `\d` and `strip`, and the signs and underscores `int()` accepts in a sidecar, are not modelled.
- FieldMap.FreezeVariables: the variables of a message are assumed to be distinct objects; the path of the sidecar and its directory are not modelled.
- Sealing of protected columns, foreign keys with child DAOs, automatic keys, repeated composed fields and unprefixed flattening are not modelled; such fields are `Elsewhere` in the schema.
- The type registry is given as an unfolded tree, so a cyclic nesting of table-less messages, on which the generator does not end, has no model; the notes beside the columns are not modelled.
- Child tables are modelled for one map and one repeated field of a message; SQL is taken by its relational meaning, and column names compare exactly. The DAO opens no transaction, so a failed create keeps what it did before the failure.
- Callback bodies of the event channel are reduced to whether they throw; replacing the audit sink while running is not modelled.
- Resolution of import paths and the pre-lexer are parameters of `Imports`; a cycle is given as the resolved files rather than as their joined base names.
- Migration leaves out creation of a missing table, the data-transform hook, retyping, identity keys, and the evolution of child tables.
- Directories, permissions, decoding errors and modification times of the file system are not modelled; a copy's source is taken not to change during a run.
