# Verification of the lab programs

A Dafny model of the protocols and algorithms among these C lab programs, with proofs about every
input, every run and every interleaving. `dafny verify dfyconfig.toml` checks all of it.

| file | models |
|---|---|
| `Josephus.dfy` | the list process "remove every step-th", its permutation law and closed form |
| `TokenRing.dfy`, `RingChild.dfy` | `src/34.c`: the ring of processes and FIFOs as a state machine under any schedule; the child's loop body on its buffers |
| `Bathroom.dfy` | `src/52.c`: any number of threads on two semaphores, one program counter per semaphore operation |
| `StableSort.dfy`, `UList.dfy` | `include/u_list.h`: merge sort on sequences; nodes, chains and the list object on the heap |
| `FarmerPuzzle.dfy`, `FarmerServer.dfy` | `src/53_server.c`: one session's marks and replies; the sixteen-slot table fed by one queue |
| `CStrings.dfy`, `ScriptClient.dfy` | `src/53_client.c`: the character loop, the sends, the stop at the first error |
| `ScriptedSession.dfy` | the client and the server together, among other clients |
| `HashTable.dfy` | `include/hash_table.h`: the chained table, its growth, and the map it does or does not stand for |
| `Fips180.dfy`, `Sha256.dfy` | FIPS 180-4, sections 2.2.2, 4.1.2, 5.1.1, 5.3.3 and 6.2.2; `sha256_to_string` against it |
| `WordOps.dfy`, `RoundConstants.dfy` | what the word operations do bit by bit and to numbers; the constants as roots of the first primes |
| `Coprimes.dfy`, `CoprimeDialogue.dfy` | `src/33.c`: Euclid's loop and the array of coprimes; the two pipes under any schedule and any pipe capacity |
| `Occurrences.dfy` | `src/23.c`: the greedy scan and the line buffer |
| `Serializer.dfy` | `src/42.c`: the printer and the strtok parser |
| `Options.dfy`, `Quotients.dfy` | values that may be missing; uniqueness of quotient and remainder |

What the code does differently from what one would expect of it is kept and proved:

- Ring: the last child forwards to a neighbour that is gone (`src/34.c:238`); that write is dropped.
  No other message is ever written to a process that is gone.
- Bathroom: `state` is set at line 117 and counted only at line 122, and a thread that leaves in
  between empties it. The sexes are kept apart on all runs exactly when there is one slot, or at most
  two threads, or one sex (`ExclusionExactly`); on a given run they are kept apart when nobody empties
  the state in that gap (`CleanRunsAreExclusive`).
- List: `u_list_sort` leaves `last` alone, so it is right afterwards exactly when the last node was a
  greatest one (`LastAfterSort`). `u_list_insert_sorted` does not mind. `u_list_push_back` then cuts off
  what stands behind `last` (`PushBack`), which is exactly the nodes greater than it (`BehindLast`),
  while `size` still counts them.
- Hash table: growth files entries under their old index (line 315). A run of sets leaves the table a
  map exactly when no growth came while a stored key's hash changed with the capacity
  (`RunIsMapExactly`, for hashes that are a number modulo the capacity, as all in the repository are).
  The 97th distinct key is the first to matter: after the keys 0 to 95 and 128, `get` does not find
  128, which was set last (`LastSetIsLost`). `get` returns whatever is alone in the bucket (line 208,
  `GetOnMap`).
- Counting: a line that is cut at the end of the buffer can hide an occurrence. For every buffer size
  and every search string of two or more characters with no newline before its end there is such a
  line (`OccurrenceIsMissed`); for every bound on the lengths of lines it is proved exactly when
  nothing is missed (`CountIsBestExactly`).
- Client: a script that holds the escape character as a command of its own ends the session without a
  reply, and the client waits for ever; `RunScript` says so.
- Serializer: a record comes back exactly when its name is not empty and has no semicolon (`RoundTrip`).

Parameters stand for what the programs get from outside: the schedule (a sequence of process or thread
numbers), the request stream of `src/33.c`, the pipe capacity, the comparer and hash of the containers,
the server that the client talks to, the file texts.

## Model

| member | source | states |
|---|---|---|
| TokenRing.RingRefinesOrder | src/34.c:214-310 | For every n and step with 1 < step < n and every schedule, the children that have left are a prefix of the list process's order, no child fails or reaches the UNREACHABLE branch, and the ring is stuck exactly when all have left, which takes exactly TotalSteps effective steps and (n-1)*step+2 receptions. |
| TokenRing.RunHistory | src/34.c:214-310 | Every run keeps: those who left followed by the order the token's list still promises is the whole order; receptions done plus to come is constant; effective steps plus remaining work is constant. |
| TokenRing.StepHistory | src/34.c:214-310 | One turn of any child keeps this and does exactly one unit of remaining work unless it changes nothing. |
| TokenRing.SomebodyCanMove | src/34.c:215-219 | While a token is around some child can take an effective step. |
| TokenRing.NothingIsLost | src/34.c:238-244 | Before the last hop the holder's output is a live process of the list, and a child that is about to switch switches to a live one. |
| TokenRing.StartInv | src/34.c:339-344 | The first message sets up the ring invariant: one token, on its way to child 0, all children alive, every output at the successor. |
| TokenRing.ReadInv | src/34.c:215-219 | Only the child at the token's place in the list can read a message, and reading keeps the invariant. |
| TokenRing.ForwardInv | src/34.c:273-285 | Passing the token on with count - 1 keeps the invariant, and the child goes on to switch exactly when the count reached 0 with more than two alive. |
| TokenRing.EliminateInv | src/34.c:223-244 | A child whose count ran out removes itself; the list stays increasing and exact, and every live output fits the shorter list, because the predecessor has moved or is about to move its output. |
| TokenRing.LastInv | src/34.c:223-270 | The last child leaves and no token remains. |
| TokenRing.SwitchInv | src/34.c:300-305 | Moving the output two places ahead keeps the invariant, also while the token has moved on. |
| TokenRing.CompactRemoves | src/34.c:224-235 | The compaction loop removes exactly the child's position from an increasing list. |
| TokenRing.SwitchTargetIs | src/34.c:287-298 | The search finds the cyclic successor of the successor, for every position including the wrap. |
| RingChild.Message.First | src/34.c:339-344 | The parent's first message: count = step, alive = 0..n-1. |
| RingChild.Child.RemoveSelf | src/34.c:224-236 | The two buffer loops make of the message exactly the shorter list with the next count. |
| RingChild.Child.TwoPlacesOn | src/34.c:287-298 | The loop with its break finds the process two places after this one, -1 when this one is not in the list. |
| RingChild.Child.Turn | src/34.c:221-309 | What a child writes and where, whether it leaves, fails or goes on, and its output afterwards. |
| RingChild.TurnIsSteps | src/34.c:221-309 | Such a turn is what the ring of all children steps with: the same message in the same FIFO, the same end, the same output. |
| Josephus.OrderIsPermutation | src/34.c:223-236 | Everybody leaves exactly once. |
| Josephus.LastToLeave | src/34.c:236 | For every list and start position the last to leave is at the position given by f(1) = 0, f(m) = (f(m-1)+step) mod m. |
| Josephus.LastOfRing | src/34.c:339-344 | With the first message of the parent the last child is (1 + f(n)) mod n. |
| Bathroom.Threads.Move | src/52.c:112-141 | One semaphore operation and what follows it up to the next one is one step of the state machine. |
| Bathroom.Reachable | src/52.c:112-141 | In every reachable state: one mutex token, free slots plus slot holders is n, inside is the number of threads between increment and decrement and within 0..n, and with the mutex free state is taken only if somebody is admitted or inside. |
| Bathroom.CleanRunsAreExclusive | src/52.c:117-138 | Men and women are never inside together on a run in which line 138 never empties state while another thread is between lines 117 and 122. |
| Bathroom.ExclusionExactly | src/52.c:112-141 | They are never inside together on any run if and only if there is one slot, or at most two threads, or one sex. |
| Bathroom.StateEmptiedEarly | src/52.c:134-139 | For any two threads of one sex, a run in which one leaves and empties state while the other is admitted. |
| Bathroom.MixedRun | src/52.c:116-122 | With two or more slots, two threads of one sex and one of the other, a run that puts both sexes inside. |
| Bathroom.TwoThreadsAreClean | src/52.c:116-138 | With one man and one woman every run is clean. |
| Bathroom.FinishedWasInside | src/52.c:112-141 | On every run a thread that has finished, or only left, has been inside before: being refused does not end it. |
| Bathroom.EnteredWasAdmitted | src/52.c:113-125 | On every run nobody is admitted, inside or finished but by a look at state that found it empty or of the thread's own sex. |
| Bathroom.RefusedTriesAgain | src/52.c:113-131 | A refused thread gives the mutex back, leaves everything as it was and starts over. |
| Bathroom.EverybodyCanFinish | src/52.c:112-141 | From every reachable state some continuation lets all threads finish, each having been inside. |
| UList.Split | include/u_list.h:358-373 | The slow and fast walk cuts a chain of two or more into its first half, rounded up, and the rest, both non-empty; shorter chains are handed back. |
| UList.MergeChains | include/u_list.h:375-387 | The merge relinks two disjoint chains into the chain that the merge of their node sequences describes. |
| UList.MergeSort | include/u_list.h:389-398 | The recursion relinks the chain into the sorted node sequence. |
| UList.SortList | include/u_list.h:400-415 | The list holds its old nodes in sorted order, size is recounted even if it was wrong, last is untouched; a null list is an error. |
| StableSort.SortContents | include/u_list.h:375-398 | Sorting rearranges the nodes and nothing else. |
| StableSort.SortSorted | include/u_list.h:375-398 | For every total preorder the result is sorted. |
| StableSort.MergeStable | include/u_list.h:375-387 | Equal nodes of the left chain come before those of the right one, each in its order. |
| StableSort.SortStable | include/u_list.h:389-398 | Nodes that compare equal keep their order. |
| StableSort.SortIsTheStableOrder | include/u_list.h:389-398 | The result is the only sorted arrangement that keeps every class of equal nodes in order. |
| StableSort.SortDistinct | include/u_list.h:389-398 | The sorted chain holds every node once, as a chain without a cycle has to. |
| StableSort.BehindLast | include/u_list.h:400-415 | In the sorted list the nodes behind the old last node are exactly those that come after it in the order. |
| StableSort.LastAfterSort | include/u_list.h:400-415 | The old last node is last after sorting if and only if no node comes after it in the order. |
| StableSort.InsertIsSort | include/u_list.h:161-211 | Inserting into a sorted list gives the list that sorting the list with the new node put in front gives. |
| UList.PushBack | include/u_list.h:129-159 | For every list, also one with a stale last: a fresh node goes behind last, the nodes that stood there are cut off, size grows by one; the list is in order afterwards if and only if it was and last was its last node. |
| UList.InsertSorted | include/u_list.h:161-211 | For every list, also one with a stale last: a fresh node goes in front of the first node that its data does not come after, size grows by one, and last is kept, or is the new node when that is at the end. |
| FarmerPuzzle.ParseExactly | src/53_server.c:104-146 | Which text is which command, by the items' names in the order of the marks; every other text is unknown. |
| FarmerPuzzle.MarksFollowRules | src/53_server.c:92-181 | Every command does on the side marks what the puzzle's rules say, with the rules' reply, and keeps the marks in order. |
| FarmerPuzzle.ErrorsRead | src/53_server.c:108-181 | Each error code with its text, literally, in a state that brings it about. |
| FarmerPuzzle.RunFollowsRules | src/53_server.c:92-181 | So does every sequence of commands, reply by reply. |
| FarmerPuzzle.FormatIsDescribe | src/53_server.c:198-229 | The text of the marks is the description of the puzzle: the side that a carried item's mark is on does not show. |
| FarmerPuzzle.StateReads | src/53_server.c:198-229 | The text of a session, literally: who is on which bank, who is aboard, and on which side the boat is. |
| FarmerPuzzle.DescribeTells | src/53_server.c:198-229 | Different puzzles have different texts. |
| FarmerPuzzle.SameTextSameBehaviour | src/53_server.c:92-229 | Two sessions have the same text if and only if they answer every further command sequence alike. |
| FarmerPuzzle.EatenIffUnsafe | src/53_server.c:146-171 | On the marks: the four tests of the two sides give a reply of 4 to 7 exactly after a move that leaves the bank without the farmer unsafe. |
| FarmerPuzzle.SafeWhileNobodyEaten | src/53_server.c:92-176 | On the marks: from a safe state and while no reply is 4 to 7, the bank without the farmer holds neither wolf with goat nor goat with cabbage. |
| FarmerPuzzle.SessionSafety | src/53_server.c:30-43 | Every session of a client has, after every command sequence, the farmer and each item in exactly one place and at most one item in the boat, and is safe while nobody was eaten. |
| FarmerPuzzle.SevenMovesNeeded | src/53_server.c:152-171 | Getting all four across with nobody eaten takes at least seven successful moves. |
| FarmerPuzzle.SevenMovesSuffice | solution.txt:1-4 | The commands of the solution file get all across with seven moves and no error reply. |
| ScriptClient.SolutionIsRead | solution.txt:1-4 | What the client reads from the characters of that file: seventeen commands and no rest. |
| ScriptedSession.SolutionCrosses | solution.txt:1-4 | From the characters of that file to the other side: the client sends all its commands, no reply is an error, and the session ends with all four across. |
| FarmerServer.Server.FindSession | src/53_server.c:23-28 | The loop returns the first slot of the client, or -1. |
| FarmerServer.Server.CreateSession | src/53_server.c:30-43 | The first free slot becomes the client's, in the start position; a full table is unchanged. |
| FarmerServer.Server.FindCarry | src/53_server.c:95-102 | The loop finds the first item marked as carried, or -1. |
| FarmerServer.Server.Dispatch | src/53_server.c:92-182 | The command chain changes the one session's marks as the command demands and nothing else, and sets that status. |
| FarmerServer.Server.Format | src/53_server.c:198-229 | The three buffers filled letter by letter give the state's text. |
| FarmerServer.Server.Handle | src/53_server.c:74-191 | One turn of the receive loop is one step of the table, reply included. |
| FarmerServer.RefusedWhenFull | src/53_server.c:74-82 | A client is refused if and only if it has no session and sixteen others have. |
| FarmerServer.TableRefinesMap | src/53_server.c:23-43 | The slots behave as a map of at most sixteen sessions: same state, same reply, no client in two slots. |
| FarmerServer.ClientsAreIndependent | src/53_server.c:74-191 | For every interleaving, a client that is never refused has the session and the replies it would have alone. |
| FarmerServer.EscapeForgets | src/53_server.c:84-88 | Only the messages since a client's last escape matter. |
| FarmerServer.AloneIsSession | src/53_server.c:74-191 | Between two escapes a client sees one puzzle session from its first command on. |
| ScriptClient.RunScript | src/53_client.c:57-105 | For every file, NULs included, and every server: the commands up to and including the first not answered with status 0 are sent. When that one has no reply the client waits for ever; otherwise the escape follows, and the exit status is 1 exactly when there was no error reply and text follows the last semicolon. |
| ScriptClient.SplitJoins | src/53_client.c:57-85 | The semicolon-ended pieces and the rest put together are the stripped text. |
| ScriptClient.SplitIsUnique | src/53_client.c:57-85 | No other pieces without semicolons do that. |
| ScriptClient.CommandsGrow | src/53_client.c:57-85 | Reading further only adds commands. |
| ScriptClient.StoppedAt | src/53_client.c:69-76 | A missing or nonzero reply met after part of the file is the first such of the whole file's commands. |
| CStrings.SpacesAreBlanks | src/53_client.c:58 | Exactly six characters are whitespace. |
| ScriptClient.StripWeaves | src/53_client.c:58-60 | Every text is what is left of it, in order and without any of the six, woven with gaps of them. |
| ScriptClient.StripOfWoven | src/53_client.c:58-60 | Gaps of the six, wherever they are put, are skipped and nothing else is. |
| ScriptClient.ScriptIsRead | src/53_client.c:57-85 | However gaps are put into pieces, each ended by a semicolon, and a rest: the client reads the pieces that are not empty, each cut to 255 characters, and the rest is left over. |
| ScriptClient.ScriptRoundTrip | src/53_client.c:57-85 | However gaps are put into short non-empty commands, the client reads exactly these and nothing is left over. |
| ScriptedSession.TableAnswersScript | src/53_server.c:74-191 | Whatever other clients send in between, the table answers a script's commands as if the client were alone. |
| ScriptedSession.AnsweredUnlessEscape | src/53_server.c:84-88 | Only the escape message has no reply. |
| ScriptedSession.ScriptStopsInTime | src/53_client.c:69-76 | With the server's table at the other end and any other clients' messages in between, the client's session is safe after every command before the first that is not answered with 0, whatever the file. |
| HashTable.HashTable.constructor | include/hash_table.h:60-111 | The table starts with 128 empty buckets. |
| HashTable.HashTable.FindNode | include/u_list.h:233-251 | The chain walk returns the first entry that the comparer calls equal, or none. |
| HashTable.HashTable.SetKey | include/hash_table.h:128-194 | A present key's value is replaced, another entry goes in front of its chain, and the table grows when the factors say so. |
| HashTable.HashTable.GetKey | include/hash_table.h:196-226 | The lookup with its shortcut for chains of one. |
| HashTable.HashTable.Resize | include/hash_table.h:280-335 | The capacity doubles and every chain moves, reversed, to its old index. |
| HashTable.SettledRunIsMap | include/hash_table.h:128-194 | After every run of sets in which no growth came while a stored key's hash changed, the table is the map of latest values, each entry in the bucket its hash names; for every hash within the capacity. |
| HashTable.RunIsMapExactly | include/hash_table.h:128-194 | For hashes that are a number modulo the capacity: after a run of sets the table is the map of latest values if and only if no growth came while a stored key's hash changed. |
| HashTable.PlacedIsSettled | include/hash_table.h:309-329 | An entry that growth has misfiled stays misfiled through every later set and growth. |
| HashTable.NinetySeventhKey | include/hash_table.h:186-191 | After the 97th distinct key, get finds exactly the keys whose number modulo 256 is below 128, the new one included. |
| HashTable.LastSetIsLost | include/hash_table.h:186-191 | After the keys 0 to 95 and 128, get of 128 reports it missing. |
| HashTable.FewKeysAreAMap | include/hash_table.h:186-187 | Up to 96 distinct keys the table never grows and is that map, for every comparer that is 0 exactly on equal keys and every hash within the capacity. |
| HashTable.LatestValue | include/hash_table.h:196-226 | Then get returns the latest value of every key ever set, and size is the number of distinct keys. |
| HashTable.GetOnMap | include/hash_table.h:208-221 | On a table that is a map: the stored value; for an absent key the value of whatever is alone in the bucket, else nothing. |
| HashTable.GrowPlacedExactly | include/hash_table.h:309-329 | Growth leaves every entry in the bucket its hash names if and only if no stored key's hash changes with the capacity. |
| HashTable.GrowthLosesExactly | include/hash_table.h:309-329 | For a hash that is a number modulo the capacity, a stored key is still found after growth exactly when that number modulo the new capacity is below the old one. |
| HashTable.GrowKeepsEntries | include/hash_table.h:309-329 | Growth keeps the multiset of entries. |
| HashTable.SetContents | include/hash_table.h:143-191 | Every set, with or without a growth, adds its entry and takes away exactly the one it replaces. |
| HashTable.EveryRunIsLoaded | include/hash_table.h:172-191 | After every run of sets, whatever the hash, size counts the entries and 4*size <= 3*capacity. |
| HashTable.EveryRunKnowsLongest | include/hash_table.h:174-176 | After every run of sets, whatever the hash, max_chain_length is the length of the longest chain. |
| Sha256.Sha256ToString | include/hash_table.h:428-522 | For every message shorter than 2^61 bytes the digest is the SHA-256 of FIPS 180-4, and its i-th group of four bytes spells the i-th word of the hash value, the highest byte first. |
| Sha256.PaddedIsPad | include/hash_table.h:445-454 | The padded buffer is the padding of section 5.1.1 of FIPS 180-4. |
| Sha256.PaddedLengthIsLeast | include/hash_table.h:446 | Its length is the least multiple of 64 that is at least len + 9, so the byte 0x80 and the length field never meet. |
| Fips180.ZeroBitsIsLeast | include/hash_table.h:446-449 | The number of zero bits is the least solution that section 5.1.1 asks for. |
| Sha256.PadMessage | include/hash_table.h:445-454 | The buffer filled in place: message, 0x80, zeros, and the length byte by byte from the end. |
| Sha256.PaddingIsInjective | include/hash_table.h:445-454 | Different messages have different paddings. |
| Sha256.FillSchedule | include/hash_table.h:457-471 | Both loops fill w with the message schedule of the block. |
| Sha256.FourBytes | include/hash_table.h:458-461 | The shifts and ors are the big-endian word. |
| Sha256.ShiftByteIn | include/hash_table.h:458-461 | The or of four shifted bytes is the number they spell. |
| WordOps.OrDisjoint | include/hash_table.h:458-461 | An or of numbers without common bits is their sum. |
| WordOps.ValueOfFour | include/hash_table.h:458-461 | The word of a block is the number its four bytes spell, the highest first. |
| WordOps.AndBits | include/hash_table.h:486 | Bit i of And is 1 if and only if both have it. |
| WordOps.XorBits | include/hash_table.h:464-491 | Bit i of Xor is the sum of the two modulo 2. |
| WordOps.NotIs | include/hash_table.h:486 | Not is 2^32 - 1 minus the word. |
| WordOps.ShrIs | include/hash_table.h:466-469 | A shift down by n is division by 2^n. |
| WordOps.ShlBits | include/hash_table.h:464-490 | A shift up by n within 32 bits: bit i comes from bit i - n, and the lowest n are 0. |
| WordOps.RotrBits | include/hash_table.h:464-490 | The or of the two shifts is rotation: bit i comes from bit i + n, round the word. |
| WordOps.ChBits | include/hash_table.h:486 | Ch chooses: a bit of the second word where the first has 1, of the third where it has 0. |
| WordOps.MajBits | include/hash_table.h:491 | Maj is the majority of the three bits. |
| WordOps.SigmaBits | include/hash_table.h:464-490 | Which three bits each bit of the four sums is the sum of, modulo 2. |
| WordOps.HashWordsFit | include/hash_table.h:456-512 | The eight hash words stay below 2^32 after every block. |
| WordOps.WordBytesSpell | include/hash_table.h:516-521 | The four bytes of a word spell it, the highest first. |
| WordOps.DigestSpells | include/hash_table.h:516-521 | So do the bytes of the digest, word by word. |
| RoundConstants.RoundConstantsAreRoots | include/hash_table.h:429-440 | The t-th round constant is the first 32 bits behind the point of the cube root of the t-th prime. |
| RoundConstants.InitialWordsAreRoots | include/hash_table.h:442-443 | The t-th initial hash word is the first 32 bits behind the point of the square root of the t-th prime. |
| RoundConstants.FirstPrimes | include/hash_table.h:429-443 | The primes meant are 2 and after each the next prime. |
| Fips180.Low32IsModulo | include/hash_table.h:470 | Keeping 32 bits is reduction modulo 2^32. |
| Sha256.RunRounds | include/hash_table.h:473-502 | The eight assignments of each round compute the 64 rounds of section 6.2.2. |
| Sha256.HashChunks | include/hash_table.h:456-512 | The chunk loop on h is the fold of the compression over the blocks. |
| Sha256.WriteDigest | include/hash_table.h:516-521 | Each group of four output bytes spells its word of h, the most significant byte first. |
| Coprimes.GcdLoop | src/33.c:52-59 | The loop returns the value that CommonDivisors characterises. |
| Coprimes.CommonDivisors | src/33.c:52-59 | A number divides both arguments if and only if it divides what the loop returns. |
| Coprimes.GcdOneIsCoprime | src/33.c:84 | The result is 1 if and only if no number above 1 divides both. |
| Coprimes.FillCoprimes | src/33.c:81-87 | The array never overruns its num cells and its first coprime_count cells are the coprimes below num. |
| Coprimes.BelowMembers | src/33.c:83-87 | These are exactly the numbers from 1 to num - 1 that are coprime to num. |
| Coprimes.UpToAscends | src/33.c:83-87 | They ascend. |
| Coprimes.CountedIffOneOrPrime | src/33.c:89-93 | Their number is num - 1 if and only if num is 1 or a prime. |
| CoprimeDialogue.ChildProcessState.Serve | src/33.c:64-108 | One request: the frame or the mark, and the counter. |
| CoprimeDialogue.ServeIsSteps | src/33.c:64-108 | Such a turn is what the child's reads and writes in the dialogue add up to when the pipe has room. |
| CoprimeDialogue.StepInv | src/33.c:61-147 | Every read or write of either process keeps the dialogue's invariant and does one unit of work unless it blocks. |
| CoprimeDialogue.EveryRun | src/33.c:61-147 | For every request stream, interleaving and pipe capacity: every frame the parent completes is the coprimes of its request, at most one request is outstanding, the mark is read exactly when the target was reached and never taken for a length, both processes end together with empty pipes, and until then somebody can move. |
| CoprimeDialogue.CountedIsPrimes | src/33.c:89-93 | The child's counter is the number of ones and primes asked for, up to the target. |
| CoprimeDialogue.RunsEnd | src/33.c:71-79 | When the target is first reached after k requests, a run ends after exactly the steps of k frames and the mark, and the parent has k frames. |
| Occurrences.CountLine | src/23.c:111-115 | The inner loop counts the greedy occurrences. |
| Occurrences.SearchStringInFile | src/23.c:106-119 | The count over all lines as fgets cuts them. |
| Occurrences.NulHidesRest | src/23.c:110-115 | Of a line that holds a NUL only what stands before it is searched. |
| Occurrences.GreedyIsPacking | src/23.c:112-115 | The occurrences counted are real, ordered, and do not overlap. |
| Occurrences.GreedyIsMaximal | src/23.c:112-115 | No selection of occurrences that do not overlap is larger. |
| Occurrences.GreedyConcat | src/23.c:110-116 | A cut that no occurrence lies across splits the count. |
| Occurrences.CutNeverAdds | src/23.c:110-116 | Cutting a text anywhere can only lose occurrences. |
| Occurrences.TotalNeverTooHigh | src/23.c:106-116 | However long the lines and whatever the characters, NULs included, the count is at most the greatest possible one. |
| Occurrences.LineCutIsSafe | src/23.c:106-110 | Where fgets cuts, no occurrence is cut when one character is searched or every line fits the buffer, without its newline unless that is searched for. |
| Occurrences.TotalIsMaximal | src/23.c:106-116 | Then the count is that of one scan of the whole text. |
| Occurrences.CountIsBest | src/23.c:97-120 | Then no selection of occurrences in the whole text that do not overlap is larger than the count, and one attains it. |
| Occurrences.OccurrenceIsMissed | src/23.c:106-116 | For every buffer size and every string of two or more characters with no newline before its end, a line with an occurrence that is not counted. |
| Occurrences.InnerNewlineNeverFound | src/23.c:110-116 | A string with a newline before its end is counted 0 times in every text. |
| Occurrences.CountIsBestExactly | src/23.c:97-120 | For every n: the count is exact on all NUL-free texts with lines of at most n characters if and only if the string has a longer line itself, or has no newline before its end and is a single character or such lines (with the newline when that is searched for) fit the buffer. |
| Serializer.SerializeCustom | src/42.c:25-31 | The snprintf calls at growing positions leave the whole record, without a cut and with room for the closing zero. |
| Serializer.FitsBuffer | src/42.c:25-31 | For every record of the C types the text has fewer than 512 characters. |
| Serializer.Strtok | src/42.c:38-49 | One call hands out the next token and leaves the others. |
| Serializer.DeserializeCustom | src/42.c:33-56 | The sequence of strtok calls parses the tokens; missing values count as 0, too few tokens or more than five values are a failure. |
| CStrings.CStringStops | src/42.c:34-36 | What stands behind the first NUL of a buffer does not matter. |
| Serializer.LongMessage | src/42.c:34-36 | Of a message without a closing zero the first 511 characters count. |
| Serializer.IntLooks | src/42.c:27 | %d is a minus sign for a negative number, else nothing, and digits without a leading zero. |
| Serializer.FixedLooks | src/42.c:29 | %f is a minus sign for a negative number, else nothing, digits without a leading zero, a point and six digits. |
| Serializer.AtoiReads | src/42.c:39 | Of whitespace, a sign, digits and a rest atoi reads the signed number; no digits count as 0. |
| Serializer.EveryTextIsInteger | src/42.c:39 | Every text has that form. |
| Serializer.LeadingZeros | src/42.c:39 | Leading zeros do not change the number. |
| Serializer.AtofReads | src/42.c:51 | Of whitespace, a sign, digits, a point, more digits and a rest atof reads the signed number of millionths, whatever the number of digits behind the point. |
| Serializer.AtoiOfPrint | src/42.c:39 | A printed integer is read back. |
| Serializer.AtofOfPrint | src/42.c:51 | A printed number of millionths is read back. |
| Serializer.TokensArePlain | src/42.c:38-49 | Whatever the text, no token is empty or holds a semicolon. |
| Serializer.TokensOfRecord | src/42.c:25-56 | The tokens of a printed record with a plain name are its fields. |
| Serializer.ParsesRecord | src/42.c:33-56 | A printed record with a plain name of any length, any count and any number of values is read back with the name cut to 63 characters, missing values as 0 and surplus ones ignored, whatever stands behind the closing zero; a count over five is a failure. |
| Serializer.RoundTrip | src/42.c:25-56 | Parsing the message with the printed record, its closing zero and whatever follows returns the record if and only if its name is not empty and has no semicolon. |

## Left out

- System calls, process creation, opening of FIFOs and queues, OS failures and partial reads: reads and writes of whole messages are single steps.
- Ring start-up handshake, report FIFO and exit status (`src/34.c:195-203, 249-263, 356-398`): children report after forwarding, so the report order is not the order of leaving, and the last child may be killed on its final write.
- Ring with more than MAX_N processes: the code does not check that bound; the state machine has no bound, the buffers in `RingChild` need it.
- Bathroom: the sleeps, and fairness; `EverybodyCanFinish` promises a schedule, not every schedule.
- `u_list_insert` and `u_list_delete_by_index` at positions above 0, where the counter never advances; get and free.
- malloc failures and freed memory.
- Resize: the size modifier is 2, the only one that a reachable call passes.
- SetKey: does not model the byte copies of keys and values; they are values of any type.
- Hash table chains are sequences in the bucket array; the nodes of such chains are modelled in `UList.dfy`.
- `hash_table_dispose` (which always returns early) and shrinking with a negative modifier.
- murmur and djb2 hashes, and the reduction of the digest to an index in `sha256_hash` (`include/hash_table.h:524-539`).
- Sha256ToString: does not model messages of 2^61 bytes and more; words are numbers below 2^32, and the signed shift at line 459 is taken as unsigned.
- FarmerServer sessions are values in an array that each command overwrites, not separate structs; aliasing between slots is not possible in either.
- TableRefinesMap: leaves out clients with process number -1, which the table uses to mark free slots.
- RunScript: leaves out a failing `mq_receive`; the server's reply is a function of the commands sent so far.
- EveryRun: the random generator is any stream of numbers of at least 1.
- CountLine: an empty search string never advances and the loop does not end, so it is excluded.
- The forked loop over a file list and `fork_bomb` in `src/23.c`.
- RoundTrip: takes values as whole numbers of millionths (digits beyond the sixth are dropped), without IEEE rounding, infinities or exponents; overflow in atoi and atof is undefined in C and has no counterpart.
- All printing, and the other lab programs (`src/1.c`, `2.c`, `3.c`, `4.c`, `21.c`, `221.c` to `224.c`, `24.c`, `31.c`, `32_*`, `41.c`, `511.c`, `512.c`): terminal and system I/O or fixed finite behaviour.
