# Verified models of the backend's file protocols and the gates' hand-written scanners

This project models, in Dafny, the parts of the repository that promise something difficult: three file protocols of
the backend that must tell the truth, or lose nothing, when calls fail or the machine stops; and the scanners and
searches written by hand in `scripts/`. `dafny verify dfyconfig.toml` checks all of it.

Each module follows one part of the source.

| module | what it models |
|---|---|
| `Inodes`, `Kernel` | a directory tree as inodes with identities, and the descriptor-relative calls on it. Every call may fail (`faults`), and between two entries of a walk the environment may make any tree at all of the disk (`drift`). `acts` records the run's own mutations; `meddled` says that the environment rebound one of the two names a run moves between since the run last looked, which it never does on an undisturbed disk (`Still`), nor where it keeps off those names (`Aloof`). |
| `Walks`, `Deletion`, `Removal` | `backend/adapters/descriptor_paths.py`: claims, inventory, validation, leases, the delete pass, `remove_claimed`, `rename_claimed`, `remove_current` |
| `Errors`, `Adoption` | `backend/adapters/adoption_move.py`: link-then-unlink and rename-with-rollback |
| `Durability`, `MoveAside` | `move_aside` of `backend/adapters/firmware_file.py`, on a disk whose changes to names and contents reach the platter one by one |
| `CallGraph` | `_exit_chain` of `scripts/check_shell_answer_functions.py` |
| `Shell`, `Mask`, `MaskScan`, `Scripts` | `_mask`, `_CaseState` and the skipping helpers of the same script: the readers; what the masker leaves, round by round, and its laws; the loop over a character array that computes it; a printer of shell code, and what the masker shows of what it prints |
| `Comments`, `Declarations`, `EndpointScan` | `scripts/check_endpoint_parity.py`: literals and comments; the declaration reader with the printer it undoes; the scanning loops |
| `Vdf`, `Frames` | `scripts/dev_ui_scale.py`: the KeyValues parser, and base framing and masking under sections 5.2 and 5.3 of RFC 6455 |
| `Anchors` | `scripts/check_markdown_links.py`: slug numbering, fences, the anchors of a document |
| `Text`, `Options` | strings the way Python orders and strips them, decimal numerals, `T \| None` |

Two conventions run through the file protocols.

* A method that makes calls which may fail carries a ghost parameter `sure`. It asks for nothing unless `sure` holds;
  when it does, the disk is one nobody disturbs and the contract says that the run succeeds and what it leaves. All
  other clauses hold of every run, wherever calls fail and whatever the environment does.
* A file the source updates in place is a field of a class. Loops of the source are loops here, proved against a
  function or a predicate of the text or of the old state, and the laws are lemmas about those.

## What came out

* A run of `remove_claimed` or `rename_claimed` tells the truth with two exceptions, this one and the next. The
  `stat` behind the staging rename (lines 200 and 270) stands outside the `try`. Where it fails, and only there, the
  exception leaves the source at the staging name or at the destination. `Removal.RemoveClaimed` and `Removal.RenameClaimed` state this
  as an if-and-only-if: `asked` is the tick of that call, two behind the rename, and the run ends `AfterStaging`
  exactly when the call at that tick fails. `Removal.StrandedByOneStat` and `Removal.MovedButForOneStat` are inputs.
* An uncertain removal may report one file too few. It does so exactly where the source is a directory, the claim is
  identity-only, and the release of the lease behind the last unlink fails (`Deletion.Uncounted`, stated as an
  if-and-only-if of every run by `Removal.RemoveClaimed`). `Deletion.UncountedByOneRelease` is an input to the branch
  where it happens.
* `move_aside` is safe at every crash point exactly when it copies, that is when `src` is no link and the first link
  call is refused as unsupported. Where it links or makes a symlink it flushes nothing before the original goes: a
  disk that writes the unlink and not the link loses the file, and `MoveAside.MayBeLost` gives that crash for every
  such run. The docstring claims safety for the copy only.
* A failed `move_pairs` leaves everything as it started unless a call that would have undone a step was refused; the
  docstring's promise holds in that sense only (`Adoption.Excused`).
* `_encode_text_frame` has no 64-bit length form: `struct.pack` raises from 65536 bytes on.
* A declaration reads back exactly when its return type does not end in `=`, which would take its closing bracket
  for an arrow's (`Declarations.ReadsBackExactly`).
* What the masker makes of a `case` is right for printed code (`Scripts.ScriptMasked`) up to one thing: inside an arm
  every word `in` counts as the `case`'s own. Behind the `in` of a `for` the next two parentheses are taken for a
  pattern's, so that of two nested subshells the outer one ends the substitution around the `case`
  (`Scripts.ForEndsSubstitution`). A `for` without parentheses behind it does no harm.
* `_CaseState` expects a pattern only while it is inside a `case`, so `self.depth > 0` in lines 182 and 186 always
  holds where it is asked.

## Model

| member | source | states |
|---|---|---|
| `Inodes.ExactGivesLevel` | backend/adapters/descriptor_paths.py:932-957 | a tree that is exactly the claimed one passes the check of each of its levels: the same names, and each name its claimed child |
| `Inodes.LevelGivesExact` | backend/adapters/descriptor_paths.py:1059-1112 | conversely, for a well-formed claim, levels that all pass make up exactly the claimed tree, path by path |
| `Kernel.World.StatName` | backend/adapters/descriptor_paths.py:422-426 | no-follow `stat`, `None` for an unbound name; it raises exactly when the fault oracle says so |
| `Kernel.World.RenameNoReplace` | backend/adapters/descriptor_paths.py:438-457 | the one inode moves and is recorded as moved, with the tick of the call, never over anything; a failed call changes nothing |
| `Kernel.World.LeaseRegular` | backend/adapters/descriptor_paths.py:460-499 | a lease is a descriptor of what the name is bound to, and may be refused |
| `Kernel.World.Drift` | backend/adapters/descriptor_paths.py:932-957 | the environment's turn between two entries: it may leave any tree behind, and what it did to the two names of a run is noted only if it rebinds one of them |
| `Walks.RequireFileClaim` | backend/adapters/descriptor_paths.py:911-929 | accepts only a file with the claimed identity (its change time apart once claimed) and content, and on a calm disk every such file |
| `Walks.ClaimedNames` | backend/adapters/descriptor_paths.py:932-952 | hands names out in order, and only where the listing is the claimed names exactly, each name once |
| `Walks.ClaimedChild` | backend/adapters/descriptor_paths.py:952-957 | one claimed entry with a fresh `stat` of its name |
| `Walks.InventoryDirectory` | backend/adapters/descriptor_paths.py:502-543 | ends on any tree, even one the environment deepens for ever (the descriptor limit ends it); in every run nothing is listed below what is no directory; undisturbed, its answer is the inventory: every path the directory leads to, each with its identity and hash, and no other; it refuses everything but directories and regular files of one mount, and directories deeper than the descriptors reach |
| `Removal.InventoryIsUnique` | backend/adapters/descriptor_paths.py:502-543 | a directory has one inventory, so comparing two compares the trees |
| `Removal.InventoryIsWellFormed` | backend/adapters/descriptor_paths.py:502-543 | what an inventory puts below a path lies below a directory, and no deeper than the tree |
| `Walks.ValidateClaimedDirectory` | backend/adapters/descriptor_paths.py:1059-1112 | undisturbed, accepts only the exact claimed tree, no deeper than the descriptors reach; and, with leases and hashes in order, every such tree |
| `Removal.ValidateAgainstInventory` | backend/adapters/descriptor_paths.py:502-543 | on a calm disk, for every well-formed identity-only claim, the level-by-level pass accepts exactly when a fresh inventory of the whole tree equals the claim |
| `Walks.AcquireDirectoryLeases` | backend/adapters/descriptor_paths.py:960-997 | holds a descriptor of the claimed inode for every claimed file and for nothing else; undisturbed, each of them proved by identity and content |
| `Deletion.RemovalProgress.Tick` | backend/adapters/descriptor_paths.py:605-608 | one more removed, even where the callback raises |
| `Deletion.DeleteFile` | backend/adapters/descriptor_paths.py:1023-1056 | the regular-file branch: at most one unlink, of an inode with the identity and content the claim holds for that path, from the directory the claim has it in; one tick for it, but exactly where the release of its own lease fails; on a calm disk the file goes and nothing else changes |
| `Deletion.UncountedByOneRelease` | backend/adapters/descriptor_paths.py:1036-1054 | the input on which a file that is gone goes uncounted: an entry as an identity-only claim has it, and one failing call, the release of the lease behind its unlink |
| `Deletion.DeleteSubdirectory` | backend/adapters/descriptor_paths.py:1023-1056 | the directory branch: its claimed files go, then its name, from the directory the claim has it in, and it is empty when it is removed |
| `Deletion.DeleteClaimedDirectory` | backend/adapters/descriptor_paths.py:1000-1056 | whatever the environment does and whichever calls fail, every inode unlinked is one the claim names, under its own name in the directory the claim has it in, with its identity and content, and every directory removed is a claimed name and empty; never more unlinks than claimed files; as many ticks, or one less exactly where the release behind the last unlink failed; on a calm disk with one name an inode the pass never trips its own checks, leaves the directory empty, touches nothing else, and unlinks and ticks once a file |
| `Deletion.ExactFrame` | backend/adapters/descriptor_paths.py:1000-1056 | a subtree stays exactly as claimed while only inodes outside it change, which is why removing one entry never trips the check of the next |
| `Removal.StagingNameDiffers` | backend/adapters/descriptor_paths.py:127-133 | the staging name is never the source's own name |
| `Removal.ClaimSource` | backend/adapters/descriptor_paths.py:69-124 | undisturbed, a claim describes what stands at the path: identity, whole inventory or content hash, on the parent's mount; in every run absent exactly when there is no parent or the `stat` goes through and finds the name unbound; it succeeds on every walkable source |
| `Removal.SealedIsDescribed` | backend/adapters/descriptor_paths.py:69-124 | for a claim that `claim_source` could have made, an inode found sealed is described by it in full |
| `Removal.LeaseClaimedSource` | backend/adapters/descriptor_paths.py:638-692 | changes nothing; undisturbed, it accepts only a staged source whose inventory or content is the claim's; it accepts every staged source that is as claimed, and then holds what the delete pass needs |
| `Removal.UnlinkClaimedSource` | backend/adapters/descriptor_paths.py:695-728 | only claimed inodes go; success means the staging name was taken away last; the ticks are the claimed files, or one less than the unlinks exactly where the lease of the last file was not released |
| `Removal.RollBackClaim` | backend/adapters/descriptor_paths.py:824-847 | the staged inode is moved back, whole, unless one of two calls fails or the move has become impossible; the refusal surfaces exactly where it was moved back and that was flushed; everything else is uncertain |
| `Removal.MoveBack` | backend/adapters/descriptor_paths.py:631-634 | gives back what stands at the other name exactly when the `stat` and the rename go through and the source's name is free |
| `Removal.StagedIsReady` | backend/adapters/descriptor_paths.py:199-205 | the staging rename keeps everything the claim says of the tree, the root's change time apart |
| `Removal.RenameRelocates` | backend/adapters/descriptor_paths.py:438-457 | a rename moves one inode whole: nothing of it changes but its change time, nothing of the two directories but the two names and their stamps, and no other inode |
| `Removal.ThereAndBack` | backend/adapters/descriptor_paths.py:787-847 | and moved back, both directories list what they did |
| `Removal.RemoveClaimed` | backend/adapters/descriptor_paths.py:172-244 | the outcome of every run is true. It is `ABSENT` exactly for a claim of nothing, of this path and root, with no parent or a `stat` that goes through and finds the name unbound. Its first act moves the sealed inode, or what the environment put in its place since the checks, or there is none: absent or raised before staging means nothing was done; undisturbed, staging is reached exactly where the claimed identity stands at the name, can be moved, and none of three calls fails. Left staged exactly when the `stat` at line 200 fails. A foreign inode, a source whose first lease call fails, and undisturbed every source not found whole is given back: moved back unless one of two calls fails or the name has been taken, and raised exactly when that is flushed. Only otherwise is anything unlinked, and only what was claimed; changed means neither name is left and the count is the claim's; uncertain means the count is that of the unlinks, or one less exactly where the lease of the last file, held for its own unlink, was not released. On a calm disk it succeeds and touches nothing outside the tree but its directory |
| `Removal.StrandedByOneStat` | backend/adapters/descriptor_paths.py:199-200 | the input on which the raise leaves the source staged: an undisturbed disk, a removable claim, and one failing call, that `stat` |
| `Removal.TreeClaim` | backend/adapters/descriptor_paths.py:1000-1056 | a claim of a tree in which each inode has one name names each inode once, and not the directory the tree hangs in |
| `Removal.RemoveCurrent` | backend/adapters/descriptor_paths.py:247-249 | what is removed is what was claimed, and undisturbed the claim describes what stood there; `ABSENT` means that nothing stood there at the claim and nothing at the removal, and undisturbed it is the answer exactly then; each outcome is as true as that of `remove_claimed`, the stranded and the given-back source and the count included; on a calm disk, whatever tree stands there is removed, and every inode it does not lead to is as it was |
| `Removal.RenameClaimed` | backend/adapters/descriptor_paths.py:252-293 | in every run the sealed inode, or what the environment put in its place since the checks, moves to the destination or nothing is done; an entry there is never replaced. `ABSENT` is the answer exactly for a claim of nothing, of this path and root, where both parents are open and the `stat` of the source goes through and finds its name unbound; so a present claim that goes no further raises. Undisturbed, only a source found as claimed is moved, to a name that is free. Left there by an exception exactly when the `stat` at line 270 fails. A foreign inode, a source whose first check fails, and undisturbed every source not found whole is rolled back: moved back unless one of two calls fails or the name has been taken, and raised exactly when that is flushed; otherwise it stays, undisturbed whole and as claimed, and the directories differ at the two names only |
| `Removal.MovedButForOneStat` | backend/adapters/descriptor_paths.py:267-270 | the input on which the raise leaves a file at the destination: an undisturbed disk, a claim that can be renamed, and one failing call, that `stat` |
| `Removal.RequireClaim` | backend/adapters/descriptor_paths.py:731-784 | changes nothing; undisturbed, it accepts only a source whose inventory or content is the claim's; and it accepts every source that is as claimed |
| `Removal.SettleRename` | backend/adapters/descriptor_paths.py:787-821 | keeps the moved source, undisturbed only if it is the sealed one, whole; otherwise rolls back as `RollBackRename` does |
| `Removal.RollBackRename` | backend/adapters/descriptor_paths.py:787-821 | what stands at the destination is moved back, whole, unless one of two calls fails or the move has become impossible; the refusal surfaces exactly where it was moved back and both directories were flushed |
| `Adoption.DropLinks` | backend/adapters/adoption_move.py:149-157 | exactly the links whose own unlink was refused are returned and still stand; every other name is as it was; where no call fails none is left |
| `Adoption.RenameOne` | backend/adapters/adoption_move.py:204-213 | carries the file to a free name, or changes nothing and says why |
| `Adoption.RollBack` | backend/adapters/adoption_move.py:215-223 | each pair is at its source again, or is reported, still at its target, and its own rename back was refused; where no call fails none is stuck |
| `Adoption.RenameWithRollback` | backend/adapters/adoption_move.py:159-202 | every pair is at its target and reported so, or untouched and reported so; no error means every pair moved, and no link had been left behind; after an error each pair still at its target is one whose rename back was refused |
| `Adoption.NothingLeft` | backend/adapters/adoption_move.py:159-202 | a link a staging attempt left behind rules a success report out |
| `Adoption.StageLinks` | backend/adapters/adoption_move.py:108-128 | a link for every pair, or, on a failure, a link exactly where its unlink was refused; the failure is the refusal of a link, with the number it was refused with, and on free names it is that call's own |
| `Adoption.UnlinkOriginals` | backend/adapters/adoption_move.py:129-146 | every pair is moved or stranded at both names, as reported |
| `Adoption.LinkThenUnlink` | backend/adapters/adoption_move.py:108-146 | the whole strategy, fall-back included, reports what the names show, and what it reports as stuck, stranded or left was tried and refused; it could not prepare exactly where a link was refused with another number than the five that stand for links not to be had there; where just one call fails, a link refused with one of the five, all pairs are renamed |
| `Adoption.EnsureParents` | backend/adapters/adoption_move.py:91-106 | every target's parent exists, or the one that does not is named; it succeeds where none of its calls fails |
| `Adoption.NoErrorIsSimultaneous` | backend/adapters/adoption_move.py:65-88 | a report without an error describes the simultaneous renaming of all pairs, whichever strategy produced it |
| `Adoption.SimultaneouslyAt` | backend/adapters/adoption_move.py:65-88 | what that renaming is, name by name |
| `Adoption.NothingIsLost` | backend/adapters/adoption_move.py:69-78 | each file a source named is still named by its source or its target |
| `Adoption.NothingMovedIsNothingChanged` | backend/adapters/adoption_move.py:69-78 | nothing moved, nothing stranded and no link left: the names are as they began |
| `Adoption.ToldIsRefused` | backend/adapters/adoption_move.py:69-78 | where anything is stuck, stranded or left, a call was refused that would have undone it |
| `Adoption.MovePairs` | backend/adapters/adoption_move.py:65-88 | for separate pairs and any failing calls: `moved`, `stranded` and `unmoved` tell of every pair once and truly, other names are untouched, nothing is lost, no error means the simultaneous renaming. Where all sources exist and all targets are free there is none if no call fails, and none if, of regular files, just one link is refused with EXDEV, EPERM, EOPNOTSUPP, EMLINK or EISDIR; `CouldNotPrepare` is reported exactly where a link was refused with another number. A failure nothing refused to undo leaves the state exactly as it started, and so does every failure on a disk where no call fails |
| `Durability.SettledStays` | backend/adapters/firmware_file.py:102-106 | a name all of whose changes have been flushed names after any crash what it names now |
| `Durability.Disk.SyncFolder` | backend/adapters/firmware_file.py:133-137 | flushing a folder makes every change to its names durable |
| `MoveAside.CopyContent` | backend/adapters/firmware_file.py:126-130 | success means the claimed file holds the whole of the source, on disk, whatever the pieces and however the writes are buffered |
| `MoveAside.CopyIntoClaimed` | backend/adapters/firmware_file.py:119-140 | success: `dst` is whole and durable under its name; failure: `dst` is gone again, or its clean-up unlink was refused; `src` stands throughout, and every state on the way is crash-safe; it succeeds for a file where `dst` is free and no call fails |
| `MoveAside.MoveFileAside` | backend/adapters/firmware_file.py:93-116 | an existing `dst` is never replaced and nothing changes then; no other name is touched; success leaves the whole at `dst` and nothing at `src`; it succeeds where `dst` is free and no call fails, and for a file, by copying, where just the first link is refused with one of four numbers; failure leaves `src`, and `dst` only where an unlink was refused; a failed move is safe at every crash point, and a successful one exactly when `src` is no link and the call that links it is refused as unsupported, so that it is copied |
| `MoveAside.RelinkedSurvives` | backend/adapters/firmware_file.py:107-116 | a crash after link-then-unlink keeps the file exactly when it does not keep the unlink without the link, or `dst` was whole on disk before |
| `MoveAside.InOrderIsSafe` | backend/adapters/firmware_file.py:107-116 | on a disk that writes changes in order no crash loses the file |
| `MoveAside.MayBeLost` | backend/adapters/firmware_file.py:107-116 | after every link-then-unlink some crash loses the file: the one that keeps every change but the link |
| `CallGraph.ExitChain` | scripts/check_shell_answer_functions.py:720-732 | ends on every finite graph; `None` exactly when no exiting function is reachable; otherwise a genuine chain, the least by length and then by names |
| `CallGraph.LexTransitive` | scripts/check_shell_answer_functions.py:728-731 | the order in which chains are compared is transitive |
| `CallGraph.LexStrict` | scripts/check_shell_answer_functions.py:728-731 | and strict |
| `CallGraph.Frontier` | scripts/check_shell_answer_functions.py:724-731 | any chain out of what was searched passes a function that is seen and still queued |
| `Shell.CaseState.Step` | scripts/check_shell_answer_functions.py:156-178 | behind `;;`, `;&` and `;;&` a pattern is expected exactly inside a `case`; otherwise the whole word that starts here is read: `case` goes one deeper, `esac` one less deep and expects no pattern, `in` expects one inside a `case`, any other word changes nothing; `None`, and no change, exactly when neither stands here |
| `Shell.CaseState.ClosesAPattern` | scripts/check_shell_answer_functions.py:184-189 | answers whether a pattern was expected, and consumes the expectation |
| `Shell.SoundStays` | scripts/check_shell_answer_functions.py:156-189 | an expectation never outlives its `case`, so the depth check beside it never decides |
| `Shell.SkipBracketed` | scripts/check_shell_answer_functions.py:387-430 | blanks through the bracket that balances the first, and no further; to the end where none does |
| `Shell.BracketBalances` | scripts/check_shell_answer_functions.py:387-430 | the walk stops where the bracket balances for the first time |
| `Shell.SkipHeredoc` | scripts/check_shell_answer_functions.py:457-472 | blanks through the first line that is the delimiter, or to the end where no line is |
| `Shell.NoteHeredoc` | scripts/check_shell_answer_functions.py:433-454 | records the delimiter as written, without its quotes, and whether tabs are stripped; nothing where no delimiter follows; and goes on behind it |
| `MaskScan.Masked` | scripts/check_shell_answer_functions.py:231-367 | ends on every text and leaves exactly the text that `Mask.MaskText` defines round by round; its length and newlines stay, and every other character stays or becomes a space |
| `MaskScan.Scan.Newline` | scripts/check_shell_answer_functions.py:250-255 | a newline is kept, and the body of every pending heredoc behind it is blanked before anything else is read |
| `MaskScan.Scan.OpenParenthesis` | scripts/check_shell_answer_functions.py:320-331 | enters a level of code unless the parenthesis belongs to a pattern |
| `MaskScan.Scan.CloseParenthesis` | scripts/check_shell_answer_functions.py:347-357 | ends a pattern, or the level if it is code and not the last, or nothing |
| `Mask.NextIsGood` | scripts/check_shell_answer_functions.py:246-367 | every round keeps the levels in order: the bottom one is the script's code and is never left, nothing lies in single quotes, and a level begins and ends behind its own characters only |
| `Mask.RunIsGood` | scripts/check_shell_answer_functions.py:246-367 | so through every run, of any number of rounds |
| `Mask.RunEnds` | scripts/check_shell_answer_functions.py:246-367 | every run reaches the end of the text with nothing due |
| `Mask.BelowStays` | scripts/check_shell_answer_functions.py:246-367 | while deeper levels are open, those below are not touched |
| `Mask.SubstitutionInDouble` | scripts/check_shell_answer_functions.py:283-286 | `$(` in double quotes is read as code, and behind its parenthesis the same quotes go on, with every level below as it was |
| `Mask.MaskVeils` | scripts/check_shell_answer_functions.py:231-244 | the masked text keeps its length and its newlines and otherwise only turns characters into spaces |
| `Mask.SingleQuoted` | scripts/check_shell_answer_functions.py:257-262 | a single-quoted string is blanked whole, whatever it holds, and the scan goes on as if it had not been |
| `Mask.DoubleQuoted` | scripts/check_shell_answer_functions.py:264-295 | so is a double-quoted string that opens nothing, its escapes included |
| `Mask.HeredocBlanked` | scripts/check_shell_answer_functions.py:250-255 | from the announcement of a heredoc to the end of its body: whatever the rest of the line holds, the newline stays, and behind it the bodies of all that was announced on the line are blanked in order, each through its terminator, on whatever level the line ends |
| `Scripts.ScriptMasked` | scripts/check_shell_answer_functions.py:231-367 | a printed script, of words, operators, strings, subshells, substitutions in and out of quotes, and `case` statements with any number of arms, all nested in any way, masks to its own text with only the quoted parts blanked, and its levels end as they began |
| `Scripts.SubstitutionMasked` | scripts/check_shell_answer_functions.py:320-357 | a substitution that holds any such code ends at the parenthesis printed to close it, not at a pattern's: behind it the levels are what they were, and up to it all of its code shows |
| `Scripts.SubstitutionStays` | scripts/check_shell_answer_functions.py:320-357 | and at that parenthesis the scan is still on the level the substitution opened |
| `Scripts.ForEndsSubstitution` | scripts/check_shell_answer_functions.py:130-189 | what stands outside that law: behind the `in` of a `for` inside an arm, two nested parentheses end the substitution around the `case` |
| `Comments.SkipString` | scripts/check_endpoint_parity.py:68-86 | just past the closing quote, escapes respected, or the end |
| `Comments.StripComments` | scripts/check_endpoint_parity.py:89-131 | computes `Stripped`, the text its laws are about |
| `Comments.StripTwice` | scripts/check_endpoint_parity.py:89-131 | stripping leaves no comment, is idempotent, and keeps the sequence of literals the scan meets, unterminated literals and comments included |
| `Comments.BlockGoes` | scripts/check_endpoint_parity.py:124-127 | a block comment ends at the first asterisk and slash behind its opening, one space stands for it, and what follows is read on |
| `Comments.LineGoes` | scripts/check_endpoint_parity.py:114-122 | a line comment ends at the first newline, which stays behind one space |
| `Declarations.CapturedOver` | scripts/check_endpoint_parity.py:145-177 | balanced text is read over whole, however nested, quoted and arrowed |
| `Declarations.PartsOver` | scripts/check_endpoint_parity.py:180-218 | no comma inside brackets or quotes cuts a part |
| `Declarations.ListedParts` | scripts/check_endpoint_parity.py:180-218 | a printed list of arguments is cut into exactly its arguments |
| `Declarations.TrailingComma` | scripts/check_endpoint_parity.py:180-218 | a comma behind the last argument adds no argument |
| `Declarations.TupleArity` | scripts/check_endpoint_parity.py:221-232 | a printed tuple has the arity of its list |
| `Declarations.CallNameBack` | scripts/check_endpoint_parity.py:235-256 | the name in the call behind a generic is read back |
| `Declarations.DeclarationBack` | scripts/check_endpoint_parity.py:296-329 | a printed declaration is read as its name, its number of arguments and its extent |
| `Declarations.CallSkipped` | scripts/check_endpoint_parity.py:296-329 | the call behind a generic declares nothing, even where its name spells the marker |
| `Declarations.DocumentBack` | scripts/check_endpoint_parity.py:296-329 | parsing a printed document records its declarations in order |
| `Declarations.RecordedIs` | scripts/check_endpoint_parity.py:327-329 | what such a record says of each name: its arity, -1 for a repeated one, nothing for one not declared |
| `Declarations.RoundTrip` | scripts/check_endpoint_parity.py:296-329 | printing any declarations and parsing the text gives each single name its arity, each repeated name -1, and no other name |
| `Declarations.EqualsHidesBracket` | scripts/check_endpoint_parity.py:134-142 | a bracket behind `=` is read as the end of an arrow and closes nothing |
| `Declarations.ReadsBackExactly` | scripts/check_endpoint_parity.py:145-177 | a printed declaration reads back as its name, its arity and its extent exactly when its return type does not end in `=` |
| `Declarations.NotReadBack` | scripts/check_endpoint_parity.py:145-177 | one that does not read back: `endpoint<[], =>("f")` |
| `EndpointScan.CaptureGeneric` | scripts/check_endpoint_parity.py:145-177 | the loop computes `Captured`, the function the round trip is about |
| `EndpointScan.SplitTopLevel` | scripts/check_endpoint_parity.py:180-218 | the loop computes `Split` |
| `EndpointScan.ArgsArity` | scripts/check_endpoint_parity.py:221-232 | the loop computes `Arity` |
| `EndpointScan.TrailingCallName` | scripts/check_endpoint_parity.py:235-256 | the loop computes `CallName` |
| `EndpointScan.SearchName` | scripts/check_endpoint_parity.py:65-65 | the first marker from an index on with no identifier character before it |
| `EndpointScan.ParseTextInto` | scripts/check_endpoint_parity.py:296-329 | the loop ends and computes `Parsed` from whatever the dictionary held |
| `Vdf.ReadQuoted` | scripts/dev_ui_scale.py:724-739 | the token and where it ends, escapes undone |
| `Vdf.ParseVdf` | scripts/dev_ui_scale.py:694-721 | ends on every text and computes `Scan` |
| `Vdf.QuotedBack` | scripts/dev_ui_scale.py:724-739 | any string with its quotes and backslashes escaped reads back |
| `Vdf.EscapeStands` | scripts/dev_ui_scale.py:724-739 | a backslash stands for the character behind it, whatever it is |
| `Vdf.GapSkipped` | scripts/dev_ui_scale.py:715-720 | space and comments between tokens say nothing |
| `Vdf.RoundTrip` | scripts/dev_ui_scale.py:694-721 | parsing a printed file gives what its entries say, with any gaps between the tokens |
| `Vdf.LastCounts` | scripts/dev_ui_scale.py:709-713 | of the entries under one key the last counts |
| `Vdf.PrintedMapBack` | scripts/dev_ui_scale.py:694-721 | every nested map has a text, and every text that spells it parses to it |
| `Vdf.RootStays` | scripts/dev_ui_scale.py:714-716 | on any text, no closing brace and nothing else takes from the root a key it has |
| `Frames.RecvExact` | scripts/dev_ui_scale.py:350-359 | exactly `count` bytes, or `None` with the stream used up, however the socket splits them |
| `Frames.RecvFrame` | scripts/dev_ui_scale.py:327-347 | the result and what is left depend on the bytes alone, not on how they are split |
| `Frames.FrameBack` | scripts/dev_ui_scale.py:327-347 | every unmasked frame reads back, for every opcode, payload and length form, and exactly its bytes are used |
| `Frames.FramesBack` | scripts/dev_ui_scale.py:327-347 | frames sent one after another are read one after another |
| `Frames.MaskedRefused` | scripts/dev_ui_scale.py:344-345 | a masked frame is refused with its key and payload left unread |
| `Frames.CutShort` | scripts/dev_ui_scale.py:327-347 | a peer that closes inside an unmasked frame gives no frame |
| `Frames.EncodeTextFrame` | scripts/dev_ui_scale.py:311-324 | a final masked text frame in the shorter form that holds its length; fails exactly from 65536 bytes on |
| `Frames.MaskedTwice` | scripts/dev_ui_scale.py:322-323 | masking is its own inverse |
| `Frames.KeyOverAndOver` | scripts/dev_ui_scale.py:322-323 | zeros masked are the key over and over, from its first byte on |
| `Frames.LengthsOnTheWire` | scripts/dev_ui_scale.py:311-347 | the bytes of a length stand on the wire most significant first, and are read so |
| `Frames.DecodedBack` | scripts/dev_ui_scale.py:311-324 | the wire format is unambiguous: every frame, masked or not, decodes to itself |
| `Frames.TextFrameBack` | scripts/dev_ui_scale.py:311-324 | what is sent decodes to one final text frame with the message for payload, and nothing over |
| `Anchors.NumberedBack` | scripts/check_markdown_links.py:108 | a numbered slug is recognised as its base and number, whatever the base |
| `Anchors.Underscored` | scripts/check_markdown_links.py:143-156 | a number is joined on by an underscore: `dup_1`, `dup_10` |
| `Anchors.NextTrial` | scripts/check_markdown_links.py:153-154 | a taken numbered slug is followed by the next number of the same base |
| `Anchors.NextIsCloser` | scripts/check_markdown_links.py:153-154 | each such step leaves fewer used slugs ahead, so the loop ends |
| `Anchors.UniqueSlug` | scripts/check_markdown_links.py:143-156 | ends for every used set; the slug itself if it is free and not empty, else the first free number behind it; and it is used from then on |
| `Anchors.FirstFreeIsUnique` | scripts/check_markdown_links.py:143-156 | that description fits one slug only |
| `Anchors.NonFencedLines` | scripts/check_markdown_links.py:228-250 | the lines outside fences, a fence running to the next line of its own character or to the end |
| `Anchors.AnchorSet` | scripts/check_markdown_links.py:187-225 | the anchors are the explicit ids and one more for each heading without an id, as many as both together |
| `Anchors.GivenIsUnique` | scripts/check_markdown_links.py:187-225 | what the headings get is settled by the document, distinct, and none of it an explicit id |
| `Text.Sorted` | scripts/check_shell_answer_functions.py:728-728 | `sorted` of a set of strings: ascending in code-point order, the same strings |
| `Text.LessMeans` | scripts/check_shell_answer_functions.py:728-728 | that order: the lesser code point at the first place where two strings differ, and the one that ends there first |
| `Text.NumeralRoundTrip` | scripts/check_markdown_links.py:154-154 | `int(str(n)) == n` |

## Left out

- Removal.RemoveClaimed: the delete pass opens the staged directory and every directory in it by name again, so where the environment swaps one in for another the model promises that what goes has a claimed name and is empty, or is a claimed file, as the code does.
- Deletion.UncountedByOneRelease: an input to the branch that unlinks one file; for a whole removal the condition is an if-and-only-if, but no input with its tick is written out, since the contracts do not count the calls a walk makes.
- Deletion.DeleteClaimedDirectory: the environment acts between two entries of a walk; the window between the last `stat` of an entry and its unlink is one step, since the code has nothing there to prove.
- Removal.RenameClaimed: a rename of a directory into itself is refused; one into a directory further down, which the kernel refuses too, is refused in the model by the fault oracle only.
- Walks.InventoryDirectory: the descriptor limit counts directory descriptors; file descriptors and leases are not counted against it.
- Kernel.World.LeaseRegular: that writers are kept out while a lease is held is not modelled, so whatever is proved holds without it; lease signals, `fcntl` and the rest of `hold_writer_exclusion` are not part of this model.
- Adoption.MovePairs: the pairs must be separate (distinct sources, distinct targets, no target a source); roll-back renames over what it lands on, so chains are outside the contract.
- Adoption.MovePairs: names are opaque, so a target nested in a moved directory is not modelled; created folders are kept apart from the names that move.
- MoveAside.MoveFileAside: the file and its own name are taken to be on disk when the move begins, and so is the entry of a folder just created, whose parent the code does not flush; no other process acts.
- Declarations.RoundTrip: the printer puts one space behind a comma and none elsewhere inside a declaration, writes names of identifier characters in double quotes, and leaves no marker in the text between declarations; the reader itself is modelled on every text.
- Vdf.ParseVdf: an open child is a value put under its key when it closes; the code shares one dictionary, which comes to the same since only the innermost one is written to.
- Frames.RecvFrame: socket errors and time-outs, which the caller handles, are left out; bytes are integers below 256 and the bit masks are remainders.
- Frames.EncodeTextFrame: the UTF-8 encoding of the message and the drawing of the mask are parameters.
- Anchors.AnchorSet: what the regular expressions and the slugifier find in a line is a parameter; slugs are single lines with ASCII digits, and `int` takes numerals of any length.
- Scripts.ScriptMasked: inside an arm no subshell and no `case` follows an `in` that is not the `case`'s own, no plain word is `esac`, and nowhere is one `case`; the first is where the code falls short. Comments, heredocs, backticks, escapes and expansions are not printed; other laws of `Mask` speak of them.
- MaskScan.Masked: what counts as a letter, digit or number is a parameter; fidelity to bash is not claimed.
- Shell.SkipBracketed: stands for `_skip_arithmetic` and `_skip_expansion`, which differ in their brackets only.
- Exception classes and messages are collapsed to where a run raised; `BaseException`, signals, errors of `close` and aborts on request are left out.
- `measure_tree`, `ensure_directory`, `open_directory_fd` and the walk of `_open_parent` from the safe root: the last is a parameter (`Anchor`).
- Hashes are an uninterpreted function of the content; mount identities are a field of the inode.
- `_find_functions`, `_matching_brace`, `_substitutions`, `_matching_paren`, `_command_words` and the report of the shell gate.
- `_strip_inline_markdown`, `slugify`, link destinations and the report of the link gate; the file walk and `find_discrepancies` of the endpoint gate.
- The CDP, KWin, journal and Steam parts of `scripts/dev_ui_scale.py`, and the other one-call members of the firmware and adoption adapters.
