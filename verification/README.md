# The configuration store of a network tap, and what hangs off it

This project models the configuration side of the p1020_etx appliance: a key/value store on a
chained hash table, served to many command-line sessions under one lock, holding filter rules
and a forwarding table under printed keys, saved as commands and restored from them, compiled
for the filter card, and the card's firmware update.  Each module follows one part of the
source, in its own form: loops over arrays, chains, buffers and fields are methods with
invariants, proved against functions about which the lemmas then speak.

| file | what it models |
|---|---|
| `Basics.dfy` | optional values, the widths of the C integers, the number of ports, texts made of parts |
| `WildcardMatch.dfy` | the recursive matcher with its early abort |
| `JenkinsHash.dfy` | the mixing circuit and the hash of a key |
| `HashTable.dfy` | 1024 linked chains, and the first/next search cursor |
| `Ipc.dfy` | requests, replies and searches between client library and server, on the hash table |
| `KeyNames.dfy`, `ConfigStore.dfy` | printed key names, and the store seen through them |
| `RemoteStore.dfy` | the same store with everything below it: names and values as bytes, calls, server, hash table |
| `Sessions.dfy` | any number of sessions, the recursive mutex, initialisation, rule counts, the serial order of commands |
| `RuleStore.dfy` | filter rules as field keys |
| `RuleText.dfy`, `RuleLines.dfy`, `RuleSave.dfy` | rules as command lines: numbers, addresses and keys; options; whole configurations |
| `KeyEntries.dfy` | a key option from its text to the entry of the card |
| `ForwardTable.dfy` | the forwarding table, its commands, saving and replay |
| `Bits.dfy`, `Tcam.dfy` | machine words as bits; rules compiled to ternary entries |
| `DeviceTables.dfy` | which entry and which table word of the card a rule or pair of rules owns |
| `Firmware.dfy` | splitting, programming, reading back and comparing an image |
| `WatchList.dfy` | the parser's slot allocator |
| `InputStack.dfy` | restoring a file through the stack of input buffers, and scanning it piece by piece |

Results where the code does not do what it was meant to do are stated as exact conditions:

- A pattern whose last two tokens are stars behaves as if it asked for one more character
  (`EffectiveOfFragile`, `FragileMeaning`, `MatchDiffers`; the smallest case is `TwoStarsMissEmptyText`).
- A packet-length range of 256 or more would be cut to a byte when a rule is read back (`SeenIsExact`);
  the parser never lets one arise, as it stops at 15 (`ListMakes1`).
- The grammar admits port 4, which the loops that save and reset stop short of: restoring in
  place loses nothing, restoring on an empty table does (`SaveResetReplayRoundTrip`, `SaveReplayRoundTrip`; one drop on
  port 4 is lost, `PortInExcessIsLost`).
- A rule that asks for offset 0 is not restored from its saved line (`RuleRoundTrip`, `RulesRoundTrip`;
  the option `offset 0` makes one, `OffsetZeroIsLost`).
- On the MC20E the length field of a rule holds a number where one bit was meant: a rule for a range
  from 0 to 11 takes every range but its own, and one for a range from 12 to 15 takes every range
  (`LengthsDisagree`), so no rule that asks for a range meets it (`Range5Exactly`).
- On the MC10P only eight length ranges have a bit: a rule for a range from 8 to 15 takes all of
  8 to 15, and a rule is met exactly when it asks for no range or one below 8 (`Range4Exactly`).
- A cleared rule is written so that "no packet should match this", but the netmasks are reversed
  on the way and leave both addresses open (`ClearedMatches`).
- On the MC10P the entries of the two rule sets overlap (`EntryIsKeptExactly`), and with 64 rules
  the words of the lookup table do (`OwnWordExactly`): a pair always agrees with the database if and
  only if its word is its own (`PairAgreesExactly`).
- A reset on the MC10P addresses the table differently from a command, and reaches the places of
  the first numbers below 16 only (`ResetReachesExactly`): a pair always agrees with the database if
  and only if its first number is below 16 or its port is the one in excess (`FlowAgreesExactly`).
- An interrupted read or write is counted as -1 bytes: the stream is right if and only if nothing
  was interrupted (`Stream.WriteAll`, `Stream.ReadAll`).
- A search leaves an address where a get that finds nothing leaves its size: after a listing the
  reply to such a get fits into the buffer if and only if the last entry selected has no other
  behind it in its chain (`Connection.MissAfterList`).  A listing of everything is harmless
  (`AllDoNotStrand`); with two keys of one bin, listing the one inserted later is not
  (`StrandedByTwo`; there are two such keys, `TwoInOneBin`).
- A configuration file is read in pieces of at most 511 characters, each scanned on its own: every
  piece ends a line or the file if and only if no line is too long (`ReadCommands`), and only then is
  the file scanned as a whole would be (`ScannedExactly`).
- An image that reaches the bank of the serial number loses four words to it, and its block to the
  erasure before; the update then reports success if and only if the image holds there what is left
  (`Flash.Update`; zeros are lost, `ZerosAreLost`).
- `db_cl_key_exists` is documented to answer with a positive number; the code answers -1.

## Model

| member | source | states |
|---|---|---|
| WildcardMatch.MatchSet | p1020_etx_v3.5.3/utils/match.c:239-372 | for a well-formed `[..]` the answer is membership, inverted or not, and the position after a hit is the closing bracket, although the scan stops at the first member; for a malformed one, exactly which of the three results comes back, as a member found before the fault decides |
| WildcardMatch.Matche | p1020_etx_v3.5.3/utils/match.c:208-396 | TRUE exactly for a match here; ABORT only if nothing further on matches; at most (characters left) + 2 calls |
| WildcardMatch.MatcheAfterStar | p1020_etx_v3.5.3/utils/match.c:405-470 | decides whether the rest matches from some later place, ends only in TRUE, ABORT or a bad pattern, and shares the bound on calls |
| WildcardMatch.Match | p1020_etx_v3.5.3/utils/match.c:477-485 | for every well-formed pattern the answer is the declarative relation of the effective pattern, and `matche` is entered at most (length of the text) + 2 times |
| WildcardMatch.CodeStarIsSomewhere | p1020_etx_v3.5.3/utils/match.c:405-470 | skipping stars and counting question marks first, then trying places, is the same as matching the rest somewhere |
| WildcardMatch.CodeGlobIsGlob | p1020_etx_v3.5.3/utils/match.c:178-206 | what the two routines decide is the documented meaning of the effective pattern, from every position |
| WildcardMatch.EffectiveUnchanged | p1020_etx_v3.5.3/utils/match.c:178-206 | a pattern not ending in two stars is its own effective pattern |
| WildcardMatch.AbortMeansNowhere | p1020_etx_v3.5.3/utils/match.c:455-467 | for such a pattern TRUE is the documented relation and ABORT means that no suffix of the text matches |
| WildcardMatch.EffectiveOfFragile | p1020_etx_v3.5.3/utils/match.c:221-225 | which patterns change meaning, and into what |
| WildcardMatch.FragileMeaning | p1020_etx_v3.5.3/utils/match.c:221-225 | such a pattern should accept a text with any matching prefix and is accepted only with a proper one |
| WildcardMatch.MatchIsSound | p1020_etx_v3.5.3/utils/match.c:471-485 | for every well-formed pattern TRUE is never wrong |
| WildcardMatch.MatchDiffers | p1020_etx_v3.5.3/utils/match.c:221-225 | FALSE is wrong exactly for a pattern ending in two stars whose core matches the whole text and no shorter prefix |
| WildcardMatch.TwoStarsMissEmptyText | p1020_etx_v3.5.3/utils/match.c:221-225 | two stars do not match the empty text |
| JenkinsHash.MixIsBijective | p1020_etx_v3.5.3/utils/hash.c:36-47 | the mixing circuit on 32-bit triples has an inverse on both sides |
| JenkinsHash.AddSubWrap | p1020_etx_v3.5.3/utils/hash.c:36-47 | sums and differences of words are those of the integers modulo 0x1_0000_0000 |
| JenkinsHash.XorBitAt | p1020_etx_v3.5.3/utils/hash.c:36-47 | bit i of an exclusive or is clear exactly when the two bits i are the same |
| JenkinsHash.ShrBitAt | p1020_etx_v3.5.3/utils/hash.c:36-47 | bit i of a word shifted right by n is bit i + n of the word |
| JenkinsHash.ShlBitAt | p1020_etx_v3.5.3/utils/hash.c:36-47 | bit i of a word shifted left by n is bit i - n of the word, and clear below n; what leaves the word is dropped |
| JenkinsHash.MixInPlace | p1020_etx_v3.5.3/utils/hash.c:36-47 | the nine assignments, with operators that mean bit by bit what the lemmas above say, compute the circuit that has the inverse |
| JenkinsHash.PackIsShifted | p1020_etx_v3.5.3/utils/hash.c:116-118 | four bytes of a key make the sum of the bytes shifted to their places, the first the lowest |
| JenkinsHash.Hash | p1020_etx_v3.5.3/utils/hash.c:100-145 | the loop over blocks and the switch over the tail reach the third word of the state that folding the key's words, packed as above, into the circuit gives; nothing is read outside the key |
| JenkinsHash.BinIsLowBits | p1020_etx_v3.5.3/utils/hash.c:48-49 | the bin of a key holds the ten lowest bits of its hash from 0x42424242, and no others |
| JenkinsHash.NoCollisionInOneBlock | p1020_etx_v3.5.3/utils/hash.c:100-145 | two keys of one length that differ in exactly one block, or in the tail, end in different states |
| HashTable.Table.Find | p1020_etx_v3.5.3/utils/hash.c:213-226 | finds the entry of a key in its chain, or none when the map has no such key |
| HashTable.Table.GetKey | p1020_etx_v3.5.3/utils/hash.c:238-260 | a copy of the map's value, or nothing |
| HashTable.Table.KeyExists | p1020_etx_v3.5.3/utils/hash.c:533-545 | -1 for a key of the map and 0 otherwise |
| HashTable.Table.Insert | p1020_etx_v3.5.3/utils/hash.c:272-325 | the map with the new value; when memory runs out, the map without the key, because the old entry is unlinked first |
| HashTable.Table.DeleteKey | p1020_etx_v3.5.3/utils/hash.c:386-419 | the map without the key, and -1 exactly when it was absent; the chains stay disjoint and free of cycles |
| HashTable.RemovalStores | p1020_etx_v3.5.3/utils/hash.c:348-374 | taking one entry out of one chain takes exactly its key out of the map |
| HashTable.AdditionStores | p1020_etx_v3.5.3/utils/hash.c:299-325 | putting an entry in front of its bin's chain adds exactly its key |
| HashTable.Table.Run | p1020_etx_v3.5.3/utils/hash.c:213-419 | any run of insertions, failed insertions and deletions leaves the map a plain table would |
| HashTable.Table.SearchChain | p1020_etx_v3.5.3/utils/hash.c:622-640 | one chain's search yields the next matching entry and stands just after it |
| HashTable.Table.GetFirst | p1020_etx_v3.5.3/utils/hash.c:611-648 | the first of the selected entries, which is stored just before the returned cursor, and the cursor has the rest of them before it |
| HashTable.Table.GetNext | p1020_etx_v3.5.3/utils/hash.c:660-699 | the next of the entries the cursor still has before it, and the cursor moves forward |
| HashTable.Table.Collect | p1020_etx_v3.5.3/utils/hash.c:611-699 | first and next, until nothing is left, end and yield exactly the matching keys with their values, each once |
| HashTable.AllDoNotStrand | p1020_etx_v3.5.3/utils/hash.c:611-699 | a search that selects every key never ends before an entry of the same chain |
| HashTable.LaterOfTwoStrands | p1020_etx_v3.5.3/utils/hash.c:299-325 | of two keys in one bin the one inserted last has the other behind it, so a search that selects it alone stops there |
| Ipc.Stream.WriteAll | p1020_etx_v3.5.3/db_client/db_client.c:275-291 | writing in pieces of any positive size sends the buffer once and in order, if and only if no call is interrupted; each interruption sends one byte too many |
| Ipc.Stream.ReadAll | p1020_etx_v3.5.3/db_client/db_client.c:318-331 | reading in pieces of any positive size takes exactly the bytes asked for, if and only if no call is interrupted; each interruption takes one byte too many |
| Ipc.Buffer.Receive | p1020_etx_v3.5.3/db_server/db_server.c:660-738 | a header and then the length it stands for empty the stream and reproduce what was sent |
| Ipc.Server.Dispatch | p1020_etx_v3.5.3/db_server/db_server.c:376-525 | the six commands on the hash table: its map changes as the command says, memory permitting; a get that finds nothing leaves the size field as it came; the existence test reads its key up to the first NUL, whatever size was sent; a lock is held once more, and an unlock is refused by a client that holds none |
| Ipc.Server.Search | p1020_etx_v3.5.3/db_server/db_server.c:528-595 | the two search commands: the pair found goes over the pattern, the position into the record, and with what is left to find it makes up what there was to find |
| Ipc.Connection.Call | p1020_etx_v3.5.3/db_client/db_client.c:379-666 | one library call is one operation on the map of the hash table, with or without memory at the server, and nothing is left on its way |
| Ipc.Connection.Run | p1020_etx_v3.5.3/db_client/db_client.c:379-666 | any run of insertions, gets, deletions and tests, failed insertions among them, is answered request by request as by a plain map, also after misses, and the lock is held as often as it was taken and not given back |
| Ipc.Connection.Next | p1020_etx_v3.5.3/db_client/db_client.c:731-776 | a search request carries its position there and back: the pair found, before what is still to find, is what there was to find, and the position moves forward |
| Ipc.Connection.List | p1020_etx_v3.5.3/cli/database.c:501-543 | listing by first and next over the connection ends and yields what the chains hold, in their order: each matching key once, with its value; the word left in the record is an address above the buffer exactly when the last entry selected has another behind it |
| Ipc.Connection.MissAfterList | p1020_etx_v3.5.3/db_server/db_server.c:376-400 | a listing and then a get that finds nothing: the reply fits into the buffer if and only if, in the chains before the listing, the last selected entry had no other behind it |
| Ipc.MissedReplyFits | p1020_etx_v3.5.3/db_server/db_server.c:605-625 | the reply to a get that finds nothing is as long as the key and the word that lay in the record |
| KeyNames.DecimalInjective | p1020_etx_v3.5.3/db_client/db_client.c:844-854 | different numbers print differently |
| KeyNames.RuleKeysPrinted | p1020_etx_v3.5.3/cli/database.c:808-881 | the printed name of every field of a rule, in full: which set, which port, which rule, which word at the end |
| KeyNames.OtherKeysPrinted | p1020_etx_v3.5.3/cli/database.c:1064-1100 | the printed names of the forwarding modes, of the counts and of the mark of initialisation |
| KeyNames.JoinInjective | p1020_etx_v3.5.3/db_client/db_client.c:844-854 | components without dots can be read back from the joined name |
| KeyNames.NameInjective | p1020_etx_v3.5.3/cli/database.c:757-1100 | no two of the keys modelled here print the same name |
| ConfigStore.Store.Delete | p1020_etx_v3.5.3/db_client/db_client.c:609-635 | the key is gone, and -1 tells that it was missing |
| RemoteStore.KeyBytesInjective | p1020_etx_v3.5.3/db_client/db_client.c:844-854 | no two keys are sent as the same bytes |
| RemoteStore.NameFits | p1020_etx_v3.5.3/db_client/db_client.h:81-86 | the key buffer has room for every key of 32-bit numbers |
| RemoteStore.Store.Insert | p1020_etx_v3.5.3/db_client/db_client.c:379-566 | an insertion of a number or of bytes, through printing, framing, server and hash table, changes that key alone; without memory the key is lost and -1 comes back |
| RemoteStore.Store.GetUl | p1020_etx_v3.5.3/db_client/db_client.c:418-448 | the number last inserted under the key comes back, over the connection |
| RemoteStore.Store.GetBlob | p1020_etx_v3.5.3/db_client/db_client.c:572-601 | the bytes last inserted, as far as there is room for them |
| RemoteStore.Store.Delete | p1020_etx_v3.5.3/db_client/db_client.c:610-635 | the key is gone from the hash table, no other is, and -1 tells that it was missing |
| RemoteStore.Store.Exists | p1020_etx_v3.5.3/db_client/db_client.c:646-667 | -1 for a key that is there and 0 otherwise, as the server answers |
| RemoteStore.Store.Dump | p1020_etx_v3.5.3/cli/database.c:501-543 | the listing of a pattern shows exactly the keys whose printed names match, each once and with its value; afterwards every call is answered if and only if the last entry selected had no other behind it, and always when every key was selected |
| RemoteStore.Store.StrandedByTwo | p1020_etx_v3.5.3/cli/database.c:501-543 | the failing run: two keys of one bin inserted into an empty store, the later one listed by its own name, and then a get of an absent key, whose reply does not fit |
| RemoteStore.TwoInOneBin | p1020_etx_v3.5.3/utils/hash.c:100-145 | there are two such keys, whatever the hash |
| RemoteStore.Store.Mirror | p1020_etx_v3.5.3/db_client/db_client.c:379-635 | the changes commands made to the store above, made over the connection, leave the hash table standing for the same store |
| RemoteStore.Store.MirrorRules | p1020_etx_v3.5.3/cli/database.c:808-1062 | so after any run of rule commands the keys in the hash table stand for the rules |
| Sessions.StepInv | p1020_etx_v3.5.3/cli/parserops.c:54-70 | every request of any session keeps the invariant of locks, counts and initialisation |
| Sessions.RunInv | p1020_etx_v3.5.3/db_server/db_server.c:474-505 | the invariant holds after every schedule of any number of sessions |
| Sessions.MutualExclusion | p1020_etx_v3.5.3/cli/parserops.c:54-70 | at most one session is inside its lock, nested calls included |
| Sessions.InitializedOnce | p1020_etx_v3.5.3/cli/cli.c:123-133 | the configuration is initialised at most once, and before any session runs a command |
| Sessions.CountsAgree | p1020_etx_v3.5.3/cli/parserops.c:1069-1283 | whenever nobody holds the lock, each stored count is the number of rules present |
| Sessions.Serializable | p1020_etx_v3.5.3/cli/parserops.c:54-70 | whenever nobody holds the lock, the database is what the jobs granted the lock give, each done at once and in the order of granting: a set rule present and counted once, a cleared one gone and no longer counted, a reset leaving no rule and zero counts on the four ports, a save changing nothing |
| Sessions.GrantedAsAsked | p1020_etx_v3.5.3/cli/parserops.c:54-70 | the jobs granted to a session are those it was told to do, in that order, up to the one it is waiting for |
| Sessions.AtomicIsEffect | p1020_etx_v3.5.3/cli/parserops.c:1069-1283 | what the requests of a command do together is the effect of the command |
| Sessions.ResetIsEmptied | p1020_etx_v3.5.3/cli/database.c:601-667 | the loops over the eight pairs of set and port leave out exactly the rules of ports 0 to 3 and set exactly their counts to zero |
| Sessions.ResetHead | p1020_etx_v3.5.3/cli/database.c:601-667 | the rules not yet found number exactly the count minus those found |
| Sessions.ResetLoopEnds | p1020_etx_v3.5.3/cli/database.c:601-667 | in every reachable state a session in the unbounded loop still has a rule ahead of it, so the loop ends |
| Sessions.SaveLoopEnds | p1020_etx_v3.5.3/cli/parserops.c:162-329 | the same for the save loop, which takes nothing out of the database: the rules not passed yet number exactly those still to be found, and each read finds its rule |
| RuleStore.Database.SetFilterRule | p1020_etx_v3.5.3/cli/database.c:808-881 | the rule table with the new rule, whatever keys an older rule leaves behind |
| RuleStore.Database.GetFilterRule | p1020_etx_v3.5.3/cli/database.c:883-971 | never misses a key of a rule that exists, and replaces exactly the flagged fields of the record |
| RuleStore.Database.DeleteFilterRule | p1020_etx_v3.5.3/cli/database.c:973-1062 | never misses a key, and the rule is gone |
| RuleStore.SeenIsExact | p1020_etx_v3.5.3/cli/database.c:935-940 | every flagged field reads back as set, if and only if no length range of 256 or more is asked for |
| RuleStore.Database.SetRuleset | p1020_etx_v3.5.3/cli/parserops.c:1069-1186 | a rule is added and counted once; a port without a count refuses it |
| RuleStore.Database.ClearRuleset | p1020_etx_v3.5.3/cli/parserops.c:1189-1283 | the rule is gone, and the count still agrees |
| RuleStore.ResetStep | p1020_etx_v3.5.3/cli/database.c:620-633 | while rules are left the loop's number is in range and one round accounts for it |
| RuleStore.Database.ResetRules | p1020_etx_v3.5.3/cli/database.c:612-639 | the loop ends and removes exactly the rules of its set and port |
| RuleStore.Database.ResetAllRules | p1020_etx_v3.5.3/cli/database.c:601-667 | no rule is left, and the counts agree |
| RuleStore.Database.Run | p1020_etx_v3.5.3/cli/parserops.c:1069-1283 | after any run of set, clear and reset commands the keys stand for the rules a plain table would hold |
| RuleText.ReadPrinted | p1020_etx_v3.5.3/cli/lexer.l:154-154 | a printed number reads back |
| RuleText.ReadPrintedQuad | p1020_etx_v3.5.3/cli/lexer.l:186-203 | a printed dotted address reads back |
| RuleText.PrintKey | p1020_etx_v3.5.3/cli/parserops.c:293-318 | the loop prints the key up to the first zero byte that is left out |
| RuleText.ParseKey | p1020_etx_v3.5.3/cli/parser.y:937-983 | accepts exactly the texts of 1 to 20 pairs of hexadecimal digits, in either case; byte j is 16 times the first digit of pair j plus the second, and counts; what follows is zero and does not |
| KeyEntries.EntryOf | p1020_etx_v3.5.3/cli/drvops.c:516-604 | from the text of a key to the card: there is an entry exactly for such a text, and it takes exactly the payloads whose bytes at the offset are the numbers the digits spell, as far as 16 or 20 bytes reach |
| RuleText.TextIsDigits | p1020_etx_v3.5.3/cli/parserops.c:298-300 | the end test never fires inside a key the parser made |
| RuleText.ReadPrintedKey | p1020_etx_v3.5.3/cli/parser.y:937-983 | a printed key reads back, mask included |
| RuleLines.MergeCarries | p1020_etx_v3.5.3/cli/parser.y:840-877 | merging an option in front unites the flags and keeps every other field |
| RuleLines.FirstOptionWins | p1020_etx_v3.5.3/cli/parser.y:833-877 | a list of options asks for a field exactly when one of them sets it, and the first of them wins |
| RuleLines.PrintedCarries | p1020_etx_v3.5.3/cli/parserops.c:223-262 | the printed options read back as the flagged fields, whatever the unset memory held |
| RuleLines.ListMakes1 | p1020_etx_v3.5.3/cli/parser.y:403-442 | what any option list of the first set makes has its unflagged fields zero and its values in range |
| RuleLines.ListMakes2 | p1020_etx_v3.5.3/cli/parser.y:444-472 | the same for the second set, with a key of whole bytes and the mask that belongs to it |
| RuleLines.RoundTrip1 | p1020_etx_v3.5.3/cli/parserops.c:223-262 | a rule of the first set survives printing and reading |
| RuleLines.RoundTrip2 | p1020_etx_v3.5.3/cli/parserops.c:284-321 | a rule of the second set does, if and only if it does not ask for offset zero |
| RuleLines.ReadRuleMakes | p1020_etx_v3.5.3/cli/parser.y:403-472 | every rule that reaches the table has the form the round trip needs |
| RuleLines.RuleRoundTrip | p1020_etx_v3.5.3/cli/parserops.c:193-329 | both sets together: the exact condition for one rule |
| RuleSave.SaveFilterConfig | p1020_etx_v3.5.3/cli/parserops.c:193-329 | saving ends and prints the line of every rule in order, although its inner loops have no bound |
| RuleSave.PrintSeen | p1020_etx_v3.5.3/cli/parserops.c:217-262 | fields that a read leaves alone do not show in what is printed |
| RuleSave.ExecuteIsCommand | p1020_etx_v3.5.3/cli/parser.y:403-472 | executing a line is the rule command it parses to |
| RuleSave.RunsAreFromCommands | p1020_etx_v3.5.3/cli/parser.y:403-472 | after any run of parsed commands the table has the form the round trip needs |
| RuleSave.RulesRoundTrip | p1020_etx_v3.5.3/cli/parserops.c:193-329 | executing the saved lines on an empty table restores it if and only if no rule asks for offset zero, whatever the unset memory of each option of each line held |
| RuleSave.OffsetZeroIsLost | p1020_etx_v3.5.3/cli/parserops.c:284-292 | the option `offset 0` parses to a rule that is not restored |
| RuleSave.RestoreLines | p1020_etx_v3.5.3/cli/parser.y:403-472 | executing lines, each with its own unset memory, on the database is their fold on the rules, and the counts keep agreeing |
| RuleSave.SaveResetRestore | p1020_etx_v3.5.3/cli/parser.y:171-240 | saving, resetting and restoring on the database: counts agree, and the rules are the same if and only if none asks for offset zero |
| ForwardTable.PrintedInverse | p1020_etx_v3.5.3/cli/parserops.c:361-400 | what is printed for a mode is the action it came from |
| ForwardTable.Forwarding.SetForwardMode | p1020_etx_v3.5.3/cli/parserops.c:1447-1540 | the database half of a command leaves every cell it covers with no key for the default, and otherwise with 0x4000 for drop, 0x2000 for sample, 0x1000 plus the VLAN, or 0x3000 plus the VLAN with sampling; no other cell changes |
| ForwardTable.LastModeIsMode | p1020_etx_v3.5.3/cli/parserops.c:1447-1540 | after any commands a cell has the mode of the last one that covers it |
| ForwardTable.StoredWords | p1020_etx_v3.5.3/cli/parser.y:1032-1092 | after any run of commands a cell holds the word, in numbers, of the last command about it, and no word without one; every stored word is 0x4000, 0x2000, 0x1001 to 0x1fff or 0x3001 to 0x3fff |
| ForwardTable.RunsAreReachable | p1020_etx_v3.5.3/cli/parser.c:2974-3062 | in every run each stored mode is the word of the command that is printed for it, so saving can name it |
| ForwardTable.Forwarding.Save | p1020_etx_v3.5.3/cli/parserops.c:331-450 | the printed commands, with a uniform row in one line and defaults left out |
| ForwardTable.RowRestores | p1020_etx_v3.5.3/cli/parserops.c:346-448 | the one-line form of a row restores it as the cell-by-cell form does |
| ForwardTable.ReplayOfSaved | p1020_etx_v3.5.3/cli/parserops.c:331-450 | replaying what was saved, on any table, puts back the saved cells of the ports below 4 and leaves every other cell alone |
| ForwardTable.SaveReplayRoundTrip | p1020_etx_v3.5.3/cli/parserops.c:331-450 | the whole table is restored if and only if port 4 has only defaults |
| ForwardTable.PortInExcessIsLost | p1020_etx_v3.5.3/cli/parserops.c:331-343 | one drop command on port 4 makes a table that is not restored |
| ForwardTable.SaveResetReplayRoundTrip | p1020_etx_v3.5.3/cli/parser.y:171-240 | restoring in place, after a reset that stops short in the same way, loses nothing |
| ForwardTable.SaveResetReplay | p1020_etx_v3.5.3/cli/parser.y:171-240 | saving, resetting and replaying on the database leaves the table as it was |
| ForwardTable.Forwarding.Replay | p1020_etx_v3.5.3/cli/parserops.c:1447-1540 | executing commands one after the other on the keys is their fold on the table |
| ForwardTable.Forwarding.Reset | p1020_etx_v3.5.3/cli/database.c:670-687 | every cell of the ports below 4 is back at its default, and no other cell changes |
| Tcam.Compiled4Meaning | p1020_etx_v3.5.3/cli/drvops.c:349-412 | four ternary words match a packet exactly when every flagged field agrees |
| Tcam.CompileRule4 | p1020_etx_v3.5.3/cli/drvops.c:349-412 | the words accumulated for a rule match just the packets it describes, addresses under their netmask; the record's netmasks come back reversed |
| Tcam.SetTuple | p1020_etx_v3.5.3/cli/lib/qnfapi.c:1264-1299 | the packing into five words matches field by field, with six bits of TCP flags and twelve of the length |
| Tcam.CompileRule5 | p1020_etx_v3.5.3/cli/drvops.c:436-483 | the five words match just the packets a rule describes, but for the length field |
| Tcam.LengthsDisagree | p1020_etx_v3.5.3/cli/drvops.c:438-442 | for a packet in one of the sixteen ranges: the first layout asks for the rule's range, or for any of 8 to 15; the second for any range but the rule's, or for none |
| Tcam.Range4Exactly | p1020_etx_v3.5.3/cli/drvops.c:349-412 | on the MC10P it does if and only if it asks for none or for one below 8 |
| Tcam.Range5Exactly | p1020_etx_v3.5.3/cli/drvops.c:436-483 | on the MC20E a rule takes just the packets of its range if and only if it asks for none |
| Tcam.ClearedMatches | p1020_etx_v3.5.3/cli/parserops.c:1222-1228 | exactly which packets the entry of a cleared rule matches |
| Tcam.ShiftKey | p1020_etx_v3.5.3/cli/drvops.c:520-546 | key and mask are moved by the offset in place, the gap left out |
| Tcam.QuadsMeaning | p1020_etx_v3.5.3/cli/lib/qnfapi.c:1395-1418 | words of four bytes match byte by byte |
| Tcam.CompileKey | p1020_etx_v3.5.3/cli/drvops.c:516-604 | the entry matches the payloads that carry the key at the offset, as far as 16 or 20 bytes reach; without a key nothing is written |
| DeviceTables.UnsharedIsKept | p1020_etx_v3.5.3/cli/lib/qnfapi.c:1315-1318 | an entry of its own keeps what was last written for its rule, over any run |
| DeviceTables.EntryIsKeptExactly | p1020_etx_v3.5.3/cli/drvops.c:415-416 | a rule's entry survives every run if and only if its address is its own, for each build |
| DeviceTables.AddressIsOr | p1020_etx_v3.5.3/cli/drvops.c:577-578 | the entry's address is the rule number with one bit set for the second rule set, 0x40 on the MC20E and 0x20 otherwise |
| DeviceTables.LutIndexIsShifted | p1020_etx_v3.5.3/cli/lib/qnfapi.c:1514-1530 | the word's index is what the two numbers, shifted by 21 and 16 and or-ed, hold above the lowest sixteen bits, overlapping bit included |
| DeviceTables.CommandAddressIsShifted | p1020_etx_v3.5.3/cli/parserops.c:1543-1581 | the place a command writes is the first number shifted by 6, or-ed with the second and masked to twelve bits |
| DeviceTables.ResetAddressIsShifted | p1020_etx_v3.5.3/cli/drvops.c:234-241 | the place a reset writes is the first number shifted by 5, or-ed with the second and masked to ten bits |
| DeviceTables.OwnWordExactly | p1020_etx_v3.5.3/cli/lib/qnfapi.c:1493-1495 | which pairs of rules have a lookup-table word of their own: all with 32 rules, those with even first and low second number with 64 |
| DeviceTables.PairAgreesExactly | p1020_etx_v3.5.3/cli/lib/qnfapi.c:1493-1495 | a pair agrees with the database after every run of commands and resets if and only if its word is its own; otherwise one drop command makes it disagree |
| DeviceTables.Card.SetPair | p1020_etx_v3.5.3/cli/drvops.c:613-653 | packing, unpacking and writing one pair changes that pair's word only |
| DeviceTables.Card.Execute | p1020_etx_v3.5.3/cli/parserops.c:1543-1581 | the driver half of a command changes exactly the pairs it covers |
| DeviceTables.Card.Run | p1020_etx_v3.5.3/cli/parserops.c:1447-1584 | after any run of default and drop commands and resets every word holds what the last command or reset touching it wrote, and the card agrees with the database at every pair with its own word |
| DeviceTables.ResetReachesExactly | p1020_etx_v3.5.3/cli/drvops.c:234-241 | the MC10P reset writes the place of a pair exactly when the first number is below 16 |
| DeviceTables.FlowAgreesExactly | p1020_etx_v3.5.3/cli/drvops.c:234-241 | on the MC10P a pair agrees with the database after every run of commands, of any mode, and resets if and only if its first number is below 16 or its port is not reset at all; otherwise a drop and a reset make it disagree |
| DeviceTables.FlowCard.Reset | p1020_etx_v3.5.3/cli/drvops.c:234-241 | the loops write the default at exactly the first 1024 places |
| DeviceTables.FlowCard.Run | p1020_etx_v3.5.3/cli/parserops.c:1543-1584 | after any run of commands and resets every pair has, in its place on the MC10P card, the mode word that the events say |
| Firmware.ByteSwap | p1020_etx_v3.5.3/cli/lib/qnfapi.c:1706-1721 | the loop over bits reverses the bits of each byte |
| Firmware.SwappedTwice | p1020_etx_v3.5.3/cli/lib/qnfapi.c:1706-1721 | doing it twice changes nothing |
| Firmware.ProgrammedAt | p1020_etx_v3.5.3/cli/lib/qnfapi.c:1927-1976 | every address gets its own word |
| Firmware.WritesAt | p1020_etx_v3.5.3/cli/lib/qnfapi.c:1927-2045 | the writes of an image are its words, swapped, at consecutive addresses, each once |
| Firmware.EachIsGood | p1020_etx_v3.5.3/cli/lib/qnfapi.c:1978-2010 | every word written belongs to a buffer of 1 to 32 words at consecutive addresses of one block |
| Firmware.EachIsWritten | p1020_etx_v3.5.3/cli/lib/qnfapi.c:1978-2010 | every buffer of the record is written, word by word and in order |
| Firmware.Flash.BlockProgram | p1020_etx_v3.5.3/cli/lib/qnfapi.c:1978-2010 | full buffers and a rest program the block's words in order |
| Firmware.Flash.BankProgram | p1020_etx_v3.5.3/cli/lib/qnfapi.c:2012-2045 | full blocks and a rest program the bank's words in order |
| Firmware.Flash.SetLogicNum | p1020_etx_v3.5.3/cli/lib/qnfapi.c:1567-1589 | the block of the serial number is erased, the number sits unswapped at its start, and nothing else changes |
| Firmware.CompareFiles | p1020_etx_v3.5.3/cli/lib/qnfapi.c:2230-2289 | 0 exactly when the read-back is the swapped image with its last four words unswapped |
| Firmware.Flash.Update | p1020_etx_v3.5.3/cli/drvops.c:93-187 | word k of the body is written once, swapped, at address k and in order; the four words from 0x70_0000 on, highest first, are the 64-bit number that the image's last eight bytes are in memory, in either byte order; and the comparison succeeds if and only if what the flash then holds is still the image |
| Firmware.SameNumber | p1020_etx_v3.5.3/cli/drvops.c:141-144 | reading eight bytes of memory as one number and writing its parts highest first keeps the number, in either byte order |
| Firmware.SmallSurvives | p1020_etx_v3.5.3/cli/drvops.c:98-110 | an image of at most 14 banks never reaches the serial number, and the whole of it is there afterwards |
| Firmware.ZerosAreLost | p1020_etx_v3.5.3/cli/lib/qnfapi.c:1567-1589 | an image of zeros that reaches beyond the serial number is not what the flash holds |
| WatchList.List.AddEntry | p1020_etx_v3.5.3/utils/watch_list.c:74-111 | nothing is handed out exactly when every slot is in use, and a slot in use is never taken |
| WatchList.List.FreeEntry | p1020_etx_v3.5.3/utils/watch_list.c:122-127 | only that slot is emptied |
| WatchList.List.Cleanup | p1020_etx_v3.5.3/utils/watch_list.c:138-152 | every slot is empty |
| WatchList.List.Run | p1020_etx_v3.5.3/utils/watch_list.c:31-152 | over any run the slots hold what the answers say, and each answer was sound when given |
| InputStack.MovedReads | p1020_etx_v3.5.3/cli/parser.c:2011-2044 | a list built in reverse and pushed in order is read the right way round, before what was pending |
| InputStack.ReadCommands | p1020_etx_v3.5.3/cli/parser.c:2011-2034 | the reading loop ends, and its pieces are the file; each of them ends a line or the file if and only if no line is longer than one read |
| InputStack.ScannedExactly | p1020_etx_v3.5.3/cli/lexer.c:2227-2252 | every scanner whose tokens end with the line gives for the pieces what it gives for the file if and only if no line is too long |
| InputStack.Scanner.Restore | p1020_etx_v3.5.3/cli/parser.c:2011-2044 | the whole file is read next, and what was pending is untouched below it |
| InputStack.Scanner.Wrap | p1020_etx_v3.5.3/cli/lexer.c:2302-2343 | the next buffer takes over and the count of open files goes down, or scanning stops |
| InputStack.Scanner.RestoreAndRun | p1020_etx_v3.5.3/cli/lexer.c:2227-2343 | exactly the file is read, piece by piece, and stack and count are then what they were; the tokens are those of the pieces, and those of the file when no line is too long |

## Left out

- Sockets, threads, signals, terminal handling, files and formatting: streams, schedules and lines stand for them.
- Requests larger than the buffer: the code has no check; keys of up to 128 bytes and values that fit behind them are assumed.
- Allocation failures outside `hash_insert`, database errors inside commands, and device time-outs: assumed not to happen.
- The error path of `save_global_config`, which unlocks twice, and the global settings, which do not read back as they were saved.
- The generated scanner and parser: commands are lists of options whose numbers, addresses and keys are text.
- Protocol names and prefix lengths in rules: never printed, and another spelling of a number and a netmask.
- Numbers beyond the width of `int` in `atoi`, and shifts by 32 for a prefix of length 0.
- Modes other than default and drop on the card: the driver sends whatever an unset variable holds.
- The last rule of a set after a reset, which is written without flags as an entry that matches everything.
- Flash status bits: a command is ready after some polls and succeeds; odd image sizes are refused before anything is written.
- `is_valid_pattern`: it disagrees with the matcher on negated sets and is not needed by it.
- Kernel drivers, framers, bypass, statistics and console tunnelling: wrappers over devices.
- JenkinsHash.NoCollisionInOneBlock: is about the three words before one of them is chosen and masked, as the masked index does collide.
- ConfigStore.Store.Delete: the commands above it run on a store whose insertions find memory; `RemoteStore` has the same operations with the failing one.
- Ipc.Server.Dispatch: a lock request that has to wait for another session; `Sessions` has any number of them.
- Ipc.Connection.Call: assumes that no read or write is interrupted; `Stream.WriteAll` and `Stream.ReadAll` say what an interruption does.
- Ipc.Connection.Run: listings are not among its calls, because a miss after one is answered only under the condition stated for them.
- RemoteStore.Store.Dump: a table that changes during a listing is not covered; the code holds the lock.
- Firmware.Flash.Update: bodies of more than the sixteen banks of the flash, for which the program stops while unlocking.
- RemoteStore.Store.Mirror: asks that each change can be sent: a key that fits into the key buffer (`NameFits`), a number of 32 bits, or bytes that fit behind the key; reads are not replayed, as they answer from the same view.
- Images of eight bytes or fewer: the number of words is then 0, or wraps around, and no bank is written or far too many are tried.
- Files that hold NUL characters: a piece ends at the first of them when it is scanned.
