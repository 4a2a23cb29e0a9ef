# Verified models of the C exercises

A Dafny model of the exercises that hold a real algorithm or protocol, with proofs of what they
are for. `dafny verify dfyconfig.toml` checks everything. Each program has its own modules:

| files | program | in one sentence |
|---|---|---|
| `CStrings.dfy`, `Tokenizer.dfy` | shared by the text programs | NUL-terminated strings in buffers, `strcmp`, and the two in-place tokenisers |
| `NameOrder.dfy`, `BookFile.dfy`, `ContactBook.dfy`, `BookSession.dfy` | `heap/task.c` | the contact book: the odd bubble pass is a stable insertion sort, and the saved file reads back as the book |
| `ArrayBook.dfy` | `structures/task.c` | the delete that shrinks the array inside its own scan |
| `Checksum.dfy` | `raw_socket/UDP_WITH_ALL_HEADERS/client.c` | the Internet checksum with two fixed folds |
| `Shop.dfy` | `threads/shop.c` | shoppers, a delivery thread, four mutexes and one unlocked counter |
| `Spiral.dfy` | `arrays/task4.c` | the spiral fill, for every side length |
| `Chat.dfy` | `shared_memory/chat/` | one message slot, an append-only log, polling readers |
| `Pager.dfy` | `file_manager/file_manage.c` | the key loop of the two-pane file manager |
| `ShellPath.dfy` | `pipes/command_interpreter/cmd.c` | the path string with its cached slash |

Code that changes arrays or objects step by step is written as methods proved against
specification functions; the lemmas are about those functions. The two concurrent programs are
transition systems whose runs are arbitrary sequences of single accesses to shared memory.
Everything from outside (`rand()`, keys, directory listings, typed words, the interleaving, the
answers of `opendir`) is an arbitrary value.

Six properties one might expect turned out to hold only under a condition; each is proved as an
equivalence:

* **Contact book.** Save and load is the identity exactly for books in name order whose records, except possibly the last, end in a newline. For the whole program, started on any NUL-free file that fits the loader's buffers: whatever is typed, the saved file is read back as the book, exactly if every contact line of that first file ends in a newline. The array version does not sort on loading and restores books in any order, exactly if every record but the last ends in a newline; otherwise records silently go missing. A file without a final newline whose last line sorts first is loaded, saved, and then overruns `words[3]` on the next start (`BookFile.MissingNewlineLosesTheBook`).
* **Deletes.** The two versions of `del_sub` agree exactly when nothing matches beyond the record after the first match, and the array version removes every match exactly when no two matches are adjacent.
* **Checksum.** Two folds are enough exactly when the second leaves no carry. They are enough for every buffer of a given length exactly if that length is at most 131076 bytes.
* **Shop.** The shoppers can always finish, but after a run the program can still end exactly if that run never had two shoppers between load and store of `glob` at once; a run that is stuck for ever exists.
* **Chat.** One message is lost, or about to be wiped, for each write that hits a slot in use; none is lost exactly if no write does. A given message is logged exactly if the server's copy comes before the next write and the next reset.
* **File manager.** The window shows the selected name's page after every key of a run exactly if Tab never enters a pane left beyond its first page. At the end of a run it does exactly if the last Tab or redraw was a redraw, or a Tab into a pane showing its first page.

## Model

| member | source | states |
|---|---|---|
| CStrings.StrCmpFirstDifference | heap/task.c:63 | the first differing character decides, and a proper prefix comes first |
| CStrings.BeforeIsDictionaryOrder | heap/task.c:63 | `strcmp(a, b) < 0` if and only if, where the two first part, `a` has ended or has the smaller character |
| CStrings.StrCmpTransitive | heap/task.c:63 | the order `strcmp` puts on names is transitive, strictly so if either step is strict; with antisymmetry and equality at 0 it is a total order |
| Tokenizer.SplitIsASplit | heap/task.c:44-59 | the pieces hold no separator, are one more than the separators, and rejoin to the string |
| Tokenizer.SplitIsTheOnlySplit | heap/task.c:44-59 | any list of separator-free pieces that rejoins to the string is the one computed |
| Tokenizer.TokenisedWords | heap/task.c:44-59 | after the in-place cut, the C strings at the recorded starts are exactly the pieces |
| Tokenizer.StokByPointer | heap/task.c:44-59 | the pointer loop returns the number of pieces, leaves them readable at the word starts, and changes the buffer only at separators of the string |
| Tokenizer.StokByIndex | pipes/command_interpreter/cmd.c:15-28 | the index loop does the same from the start of its buffer |
| Tokenizer.TokeniseTwice | pipes/command_interpreter/cmd.c:15-28 | both tokenisers, each on its own copy of a buffer, leave equal buffers, counts and word starts |
| NameOrder.SortIsStableSort | heap/task.c:61-81 | no name of the result is smaller by `strcmp` than one before it, it is a permutation, and for every name the records with that name keep their order |
| NameOrder.SortInDictionaryOrder | heap/task.c:61-81 | of any two names of the result, the earlier equals the later or, where they first part, has ended or has the smaller character |
| NameOrder.SortedIsUnique | heap/task.c:61-81 | only one list is sorted and has the same per-name sublists, so the previous row leaves no freedom |
| NameOrder.SortAbsorbsSort | heap/task.c:83-104 | sorting after each insertion equals one stable sort of everything |
| NameOrder.PassAfterSwapInserts | heap/task.c:63-78 | a swap followed by one left-to-right pass inserts the displaced record at its stable place |
| ContactBook.Book.CarryRight | heap/task.c:70-78 | the inner loop is the pass over the records from `i` on, and leaves those before alone |
| ContactBook.Book.Sort | heap/task.c:61-81 | on any array, sorted or not, the two loops leave the stable sort by name, which is in dictionary order character by character |
| ContactBook.Book.Add | heap/task.c:83-104 | the new contents are the stable sort of the old ones with the record appended, in dictionary order, for empty books too |
| ContactBook.Book.Delete | heap/task.c:106-134 | cuts out the first record whose name and surname equal the two words and no other, and returns whether there was one |
| ContactBook.DeleteFirstAt | heap/task.c:109-126 | deleting is cutting out the first match by position, or nothing |
| ContactBook.MatchesIsEquality | heap/task.c:110-111 | a record is taken for the one asked for exactly if its name and surname are the two words, whatever its number |
| ContactBook.Book.Lookup | heap/task.c:136-153 | prints the records at exactly the places where name and surname equal the two words, in the order of the places |
| ContactBook.Book.Load | heap/task.c:172-188 | reading lines, tokenising in place and adding one by one gives the stable sort of the file's three-field lines, in dictionary order |
| ContactBook.Book.Save | heap/task.c:246-259 | writes each record as its three fields with two spaces, in order |
| BookFile.SavedBookParses | heap/task.c:172-188 | the text of a book whose records are separated by newlines stays inside the loader's buffers and parses to the same records |
| BookFile.FittingFilesArePlain | heap/task.c:172-188 | every record of a NUL-free file that fits the buffers has plain fields: no separators inside, a newline only at the number's end |
| BookFile.LineRead | heap/task.c:172 | a read stops right after the first newline, at the end of the file or after 99 characters |
| BookFile.ParseLineIff | heap/task.c:173-180 | a line gives a record exactly if it has two spaces, and then the one whose three space-free fields it spells |
| BookFile.SaveLoadRoundTrip | heap/task.c:172-259 | for records with plain fields, save then load is the identity if and only if the book is in name order and all its records but the last end in a newline |
| BookFile.MissingNewlineLosesTheBook | heap/task.c:172-188 | a file without a final newline loads into a book whose saved form overruns the three-word array |
| BookSession.SessionsPersist | heap/task.c:194-259 | from a book in name order whose records end their lines, every sequence of adds and deletes keeps it so, and saving and loading gives the same book |
| BookSession.SessionsPersistIff | heap/task.c:194-259 | for a book in name order with plain fields, all sequences of typed commands lead to books that are read back unchanged if and only if every record of the first ends its line |
| BookSession.ProgramsPersistIff | heap/task.c:172-259 | from any NUL-free file that fits the loader's buffers: whatever is typed, the file written is read back as the book, if and only if every contact line of the first file ends in a newline |
| BookSession.LookupIsAQueue | heap/task.c:83-153 | for each name and surname, lookups show a queue: adds join at the end, deletes take the front, other pairs are untouched |
| ArrayBook.DelSub | structures/task.c:81-99 | the records left are exactly those not at an odd position in a run of adjacent records whose name and surname equal the two words, in order; the flag says whether there was such a record |
| ArrayBook.ScanKeepsSurvivors | structures/task.c:88-99 | the records kept are those that do not match or whose predecessor is a match that was deleted |
| ArrayBook.SurvivalAlternates | structures/task.c:88-99 | in a run of adjacent matches exactly the second, fourth, ... survive |
| ArrayBook.RunKeepsHalf | structures/task.c:88-99 | a maximal run of r matches leaves floor(r/2) of them, and what follows is scanned as if alone |
| ArrayBook.ScanDeleteKeepsOrder | structures/task.c:88-99 | a sorted array stays sorted |
| ArrayBook.ScanDeletesAllIff | structures/task.c:88-99 | no match is left if and only if no two matches are adjacent |
| ArrayBook.AgreesWithHeapDeleteIff | structures/task.c:88-99 | the result equals that of the heap version if and only if nothing matches beyond the record after the first match |
| ArrayBook.Load | structures/task.c:149-159 | the loader puts the file's three-field lines into the array in file order, unsorted, passing over all others |
| ArrayBook.SaveLoadUnsorted | structures/task.c:149-197 | for records with plain fields, save then load restores them in any order of names if and only if all but the last end in a newline; otherwise fewer come back |
| Checksum.CheckSum | raw_socket/UDP_WITH_ALL_HEADERS/client.c:36-54 | the loop returns the twice-folded complement of the word sum for either host byte order and any count, within the range of `long` |
| Checksum.WordsAt | raw_socket/UDP_WITH_ALL_HEADERS/client.c:40-48 | word k is made of bytes 2k and 2k + 1 in the host's order, an odd last byte with a zero after it |
| Checksum.OnesSumMeans | raw_socket/UDP_WITH_ALL_HEADERS/client.c:50-53 | the one's-complement sum is congruent to the plain sum modulo 65535, and 0 only if all words are |
| Checksum.TwoFoldsExactIff | raw_socket/UDP_WITH_ALL_HEADERS/client.c:50-53 | the result is the complement of the one's-complement sum if and only if the second fold leaves no carry |
| Checksum.CheckSumMeetsRfc | raw_socket/UDP_WITH_ALL_HEADERS/client.c:36-54 | up to 65538 words, an odd byte padded with zero, it is what RFC 1071 defines; 65535 only for zeros |
| Checksum.LengthsExactIff | raw_socket/UDP_WITH_ALL_HEADERS/client.c:36-54 | the result is the one RFC 1071 defines for all buffers of n bytes, in either byte order, if and only if n is at most 131076 |
| Checksum.ByteOrderIndependence | raw_socket/UDP_WITH_ALL_HEADERS/client.c:36-54 | up to 131076 bytes, swapping the bytes of all words swaps the result; hosts of opposite order store the same two bytes, for odd lengths too |
| Checksum.VerifiesIff | raw_socket/UDP_WITH_ALL_HEADERS/client.c:36-54 | up to 131076 bytes, the checksum is 0 if and only if the word sum is a positive multiple of 65535 |
| Checksum.SelfVerification | raw_socket/UDP_WITH_ALL_HEADERS/client.c:105-109 | up to 131076 bytes: zero the field, store the checksum in it, and the checksum of the whole is 0, all-zero headers included |
| Checksum.SingleWordErrors | raw_socket/UDP_WITH_ALL_HEADERS/client.c:36-54 | after changing one word, a verified buffer of up to 131076 bytes still verifies only for 0 against 65535 |
| Checksum.SealHeader | raw_socket/UDP_WITH_ALL_HEADERS/client.c:105-109 | the header code stores the checksum of the header with the field zeroed, leaves a header that verifies, and touches only the field |
| Shop.EveryRunIsSafe | threads/shop.c:14-57 | in every run: stocks at least 1, baskets between 0 and 10498 and full once the shopper has finished, goods conserved, `glob` at most the number of finished shoppers and at least 1 once there is one, delivery leaves only after all three |
| Shop.ShopperWalk | threads/shop.c:19-34 | by its own steps a shopper at shop i takes the drawn amount modulo 500 from the first later shop that is free and has 500, and if there is none nothing; it comes back to the loop test with everything else, all mutexes included, as it was |
| Shop.ShopperDecides | threads/shop.c:18-37 | at the loop test, a basket below 10000 starts a walk at shop 0, and a full one ends in `glob` raised by one |
| Shop.DeliveryWalk | threads/shop.c:44-54 | by its own steps the delivery adds the drawn amount modulo 1000 to the first later shop that is free, if there is one, and polls again with everything else as it was |
| Shop.DeliveryPolls | threads/shop.c:43-44 | the delivery leaves if `glob` is 3 and otherwise starts at shop 0 |
| Shop.LocksStep | threads/shop.c:20-32 | every step keeps each mutex owned by exactly the thread inside its critical section |
| Shop.MutualExclusion | threads/shop.c:20-32 | no two threads are at the same shop |
| Shop.OnlyHolderTouches | threads/shop.c:21-31 | only the mutex holder changes a stock, and by exactly the amount drawn, although load and store are separate steps |
| Shop.CounterStep | threads/shop.c:36-43 | `glob` and every loaded copy of it stay at most the number of finished shoppers, under lost updates too |
| Shop.Settle | threads/shop.c:18-57 | from any reachable state all threads can be brought out of their critical sections |
| Shop.ShoppersCanAlwaysFinish | threads/shop.c:18-57 | from every reachable state some continuation finishes all shoppers |
| Shop.LostStaysLost | threads/shop.c:36 | once an update of `glob` is lost or bound to be, no step repairs it |
| Shop.CanTerminateIff | threads/shop.c:36-57 | the program can still end if and only if `glob` counts the finished shoppers and at most one shopper, with a current copy, is about to store |
| Shop.RunCanTerminateIff | threads/shop.c:36-57 | after any run from the start the program can still end if and only if the run never had two shoppers between load and store of `glob` at once |
| Shop.DeliveryMayNeverLeave | threads/shop.c:36-43 | from the start the program can end, and it can also get stuck with all shoppers finished and `glob` at 1 |
| Spiral.Fill | arrays/task4.c:6-33 | for every N, odd or even, the loops assign the cells in the order of their values, N*N assignments in all, leave the spiral, and stop with the counter at N*N+1 |
| Spiral.FillTopAndRight | arrays/task4.c:11-19 | the first two loops of a ring write what is due along the top row and right column |
| Spiral.FillBottomAndLeft | arrays/task4.c:21-29 | the last two write the bottom row and left column, ending at the next ring's start, odd centre included |
| Spiral.Put | arrays/task4.c:12 | each assignment hits a cell that still holds 0 and no other cell is due that value |
| Spiral.SpiralIsBijection | arrays/task4.c:10-33 | cells and 1..N*N correspond one to one |
| Spiral.SpiralIsConnected | arrays/task4.c:10-33 | consecutive values lie in orthogonally adjacent cells |
| Spiral.SpiralWalk | arrays/task4.c:10-33 | the path goes straight on while the cell ahead is inside the square and was not visited, and turns right where it is not |
| Spiral.SpiralStart | arrays/task4.c:6-14 | it starts in the first corner, along the top row |
| Spiral.RingStartClosed | arrays/task4.c:31-32 | ring n starts at count 4n(N-n)+1 |
| Chat.ClientTextsAreMessages | shared_memory/chat/client.c:62-77 | a greeting is the fixed eleven characters and the name, a chat line the name without its newline, a colon, a blank and the typed text; neither is ever the sentinel |
| Chat.EveryRunIsSafe | shared_memory/chat/server.c:42-52 | in every interleaving within the 90 rows, the log has at most 90 rows, all distinct client writes, verbatim and in write order, and losses are accounted for |
| Chat.ServerRound | shared_memory/chat/server.c:42-52 | from the spin test with a message in the slot and a row left, five server steps put it in the next row, raise the counter and the published count by one and empty the slot, and change nothing else |
| Chat.ServerWaits | shared_memory/chat/server.c:43-45 | with the slot empty a spinning server changes nothing |
| Chat.StepFrame | shared_memory/chat/client.c:34-77 | a client write overwrites the slot and nothing else, a reader changes only itself, the server no reader, and a new reader waits at the published count |
| Chat.NinetyWritesFit | shared_memory/chat/server.c:42-52 | every interleaving in which clients write at most 90 messages stays within the rows |
| Chat.LogStep | shared_memory/chat/server.c:42-52 | every step keeps the log a strictly increasing sequence of writes |
| Chat.LossStep | shared_memory/chat/server.c:43-51 | every step keeps messages lost or doomed equal to the number of writes to a slot in use |
| Chat.LostIsMissing | shared_memory/chat/server.c:42-52 | the loss count is the number of writes found neither in the log nor in the slot |
| Chat.NothingLostIff | shared_memory/chat/server.c:42-52 | with the slot empty and the server waiting, the log is exactly what was written if and only if every write found the slot empty |
| Chat.WriteFate | shared_memory/chat/server.c:42-52 | after any further run, a write is in the log if and only if the server copied the slot before the next client write and before the next reset |
| Chat.PublishedRowsStay | shared_memory/chat/server.c:47-50 | rows below the published count never change and the count never goes down |
| Chat.ReaderStep | shared_memory/chat/client.c:34-45 | every step keeps each reader's `k` at most the count and its screen a prefix of the log |
| Chat.ReaderPaints | shared_memory/chat/client.c:36-45 | each repaint goes one entry further and ends with exactly the first `k` rows on the screen |
| Chat.ReaderCatchesUp | shared_memory/chat/client.c:34-45 | a reader left to run reaches the published count |
| Pager.PressKeepsScreen | file_manager/file_manage.c:169-267 | every key keeps local = 30*page + row, 1 <= row <= 30 and both selections inside their listings, so all drawn indices are too |
| Pager.PressAll | file_manager/file_manage.c:165-329 | so they do after every key sequence |
| Pager.InStepShowsSelected | file_manager/file_manage.c:166-267 | when the window holds the selected name's page, the line under the cursor is that name, probed under path plus name |
| Pager.CursorOnSelectedIff | file_manager/file_manage.c:180-267 | the line under the cursor is the selected name if and only if the window shows that name's page |
| Pager.PressKeepsPages | file_manager/file_manage.c:169-327 | whatever the keys, a window holds one whole page of its listing, each line probed under the pane's own path |
| Pager.ActiveInStepIff | file_manager/file_manage.c:169-327 | from any screen, after a key the active window is on its selection if and only if the key redrew it, or it was before and the key was not Tab, or the key was Tab and the entered pane shows its first page |
| Pager.RunEndsInStepIff | file_manager/file_manage.c:165-329 | after a whole run it is if and only if the last Tab or redraw was a redraw, or a Tab into a pane showing its first page |
| Pager.MovesKeepInStep | file_manager/file_manage.c:180-230 | a run without Tab or redraw changes nothing about it |
| Pager.PressInStepIff | file_manager/file_manage.c:169-327 | one key keeps both windows on their selections unless it is Tab into a pane left beyond its first page |
| Pager.RunInStepIff | file_manager/file_manage.c:165-329 | over whole runs the windows stay right if and only if that never happens |
| Pager.DownThenUpIff | file_manager/file_manage.c:180-267 | Down then Up restores everything, over a page boundary if and only if the pane was in step |
| Pager.UpThenDownIff | file_manager/file_manage.c:180-267 | the same for Up then Down |
| Pager.PressFrame | file_manager/file_manage.c:169-328 | only Tab changes sides, only Tab and running a file touch the other pane, redraws restore the path, and only Enter on a directory extends it, by the selected name and a slash, and replaces the listing |
| Pager.PressSelects | file_manager/file_manage.c:169-328 | Down and Up select the next and the previous name; at the last and the first the screen stays exactly as it is; Tab, Enter and running a file select the first name in row 1, Tab leaves the other pane as it was, and any other key changes nothing |
| Pager.PressWindows | file_manager/file_manage.c:169-328 | no window changes but by a redraw, and running a file leaves both on their selections |
| Pager.FileManager.constructor | file_manager/file_manage.c:30-160 | both panes start listed, drawn and selected from their first names, in step if their names are distinct |
| Pager.FileManager.Redraw | file_manager/file_manage.c:188-212 | the redraw loop prints the names of its range, each probed under path plus name, and gives the path back |
| Pager.FileManager.KeyTab | file_manager/file_manage.c:169-178 | Tab goes to the other pane, selects its first name and puts the cursor in row 1, and redraws nothing |
| Pager.FileManager.KeyUp | file_manager/file_manage.c:180-217 | Up moves one name back; from row 1 beyond the first name it draws the thirty names before and goes to row 30; otherwise nothing changes |
| Pager.FileManager.KeyDown | file_manager/file_manage.c:219-267 | Down moves one name on; from row 30 with names left it draws up to thirty more and goes to row 1; at the last name nothing changes, in short listings too |
| Pager.FileManager.KeyEnter | file_manager/file_manage.c:268-328 | the drawing and copying loops leave the directory's names as the listing, its first page in the window, the first name selected and the name and a slash on the path |
| ShellPath.AbsoluteStartRepresents | pipes/command_interpreter/cmd.c:45-47 | any absolute working directory starts as the stack of its components |
| ShellPath.CdRefines | pipes/command_interpreter/cmd.c:86-105 | one `cd` on path and cached slash is push or pop on the stack; popping the empty stack is a no-op |
| ShellPath.CdOnPath | pipes/command_interpreter/cmd.c:86-105 | a word that exists is put after the path with a slash, one that does not changes nothing, `..` takes the last name with its slash off, and the root stays |
| ShellPath.SessionsRefine | pipes/command_interpreter/cmd.c:86-105 | every sequence of `cd` commands ends in the spelling of the stack's final value |
| ShellPath.RepresentsIsInjective | pipes/command_interpreter/cmd.c:86-105 | a path spells only one stack |
| ShellPath.CdUpUndoesIff | pipes/command_interpreter/cmd.c:86-105 | `cd ..` undoes a successful `cd word` if and only if the word has no slash |
| ShellPath.FindLastSlesh | pipes/command_interpreter/cmd.c:30-39 | the loop finds the last slash, 0 if there is none |
| ShellPath.Shell.constructor | pipes/command_interpreter/cmd.c:44-47 | the buffer holds the working directory and a slash |
| ShellPath.Shell.ChangeDir | pipes/command_interpreter/cmd.c:86-105 | the in-place string code does the `cd` step |
| ShellPath.Shell.Interpret | pipes/command_interpreter/cmd.c:61-105 | a command line is tokenised in place and only `cd` changes the path |
| ShellPath.TokensFit | pipes/command_interpreter/cmd.c:64-65 | a command that fits its buffer never has more tokens than the 255 pointers |

## Left out

- Memory: `malloc` and `realloc` failures, strings that overflow their fixed buffers and torn `strcpy` copies are preconditions (field lengths, at most two spaces in a contact line, chat runs that stay within 90 rows, paths under 255 characters); freeing is not modelled.
- Characters: one `char` per byte; files and typed words contain no NUL.
- The printed output of the contact books, their menu loop, and the `structures` copies of `sort`, `stok`, `lookup` and the saving loop, which repeat the `heap` versions.
- Shop: the test `shops[i] >= 500` and the load of `shops[i] -= tmp` are one read, both under the mutex; stocks are unbounded integers; `main` only creates and joins the threads; what a compiler may do to the unsynchronised `glob` is not modelled.
- Chat: the server's initialisation is the start of every run; clients that were attached before it, process ends and attachment failures are not modelled.
- File manager: colours, borders, resizing, the cursor column and running the opened file; the relisting after a file was run exists on values only (`Pager.Relist`); listings are not empty, as `scandir` always finds `.` and `..`, so the branch at file_manager/file_manage.c:285 where a directory opens but lists nothing is missing.
- Command interpreter: running programs, creating files and the real working directory; whether a directory exists is an argument.
- Socket, message-queue, pipe, signal, raw-packet and kernel-module code: system-call plumbing with little state of its own.
- Calculators, `arrays/task1.c` to `task3.c`, bit operations and pointers: one-line or fixed-constant code.
