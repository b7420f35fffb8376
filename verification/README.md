# Verified model of sobby

sobby is a small event-driven server for collaborative editing. This project
models, in Dafny 4.11, the parts of it that keep state over a whole run, and
proves what they promise. `dafny verify dfyconfig.toml` checks everything.

**The selector** (`src/gselector.cpp`). `GSelector.dfy` is the class with its map
of selected sockets and the main loop with its live sources, ids and
connections; every update is the incremental one of the source, and handlers
re-enter it. `SelectorSpec.dfy` is the machine it is proved to refine: interests
and one-shot timers, with no ids at all. Every method establishes both that the
live sources and the map agree and which step of the machine has been taken, so
the theorems about runs of the machine hold of the class. `Timing.dfy` is the
clock arithmetic, `IoCondition.dfy` the two condition masks.

Two things the map seems to promise are false of the code in one case each, and
the exact condition is proved. A socket selected for its timer alone gets no
I/O channel, and adding an I/O flag to it later cannot watch it
(`TimeoutFirstThenInputIsDeaf`); likewise a socket whose `fcntl` fails stays in
the map unwatched (`FailedFcntlIsDeaf`). `DeafExactly` says that these calls and
no others leave a socket waiting for I/O that no source reports,
`OthersAreWatched` that a run keeps all sockets watched exactly if it makes no
such call, and `GSelector.Run` that after such a run of the class there is one
watch with the right mask per socket with an I/O flag and one timer per armed
socket, and nothing else. A third is the timer itself: the main loop takes an
`unsigned int`, and `DueAtDeadlineExactly` says which timers are due on time.

**The configuration** (`src/config.cpp`, `inc/config.hpp`, `src/server.cpp`).
`ConfigTree.dfy` is the tree as a nested map, its XML form and the round trip;
`ConfigEntry.dfy` the mutable owned tree on the heap, proved to refine nested map
updates; `ConfigFile.dfy` the configuration and its file; `Settings.dfy` the
two-pass resolution of the nine settings and the fixpoint of writing and reading
them; `CreatePath.dfy` the creation of directories; `Split.dfy` the splitting of
a command line.

**The autosavers** (`src/autosave_folder.cpp`, `src/autosaver.cpp`).
`AutosaveFolder.dfy` clears a document's flag before it is written, so a clean
flag is worth something only if the last attempt did not fail
(`FailedSaveCleansTheFlag` is the counterexample to the simpler invariant, and
`CleanStaysCurrentExactly` says which saves keep it). Two titles with the same
last component share a file, and saving one document may overwrite another that
is clean (`SharedFileIsOverwritten`); `CoherenceKeptExactly` and
`CoherentAllAlongExactly` say exactly when a save, and a run, do not;
`Autosaver.dfy` ignores removals, so the saved session may hold documents that
are gone; `CurrentExactly` says from the events of a run when it does not.

**Command output** (`src/command_executer.cpp`). `CommandExecuter.dfy` collects
the interleaved output of many commands. Output that is pending when a hang-up
is reported is lost (`HangUpLosesPendingInput`); a message is the whole output
exactly if nothing was pending then (`CompleteExactly`).

Members called `...Is` restate a definition of the model in the plain terms of
the source, so that no theorem rests on a definition alone.

Assumptions about code that is not in the repository: source ids of the main
loop are never reused, a destroyed source is not dispatched, and a watch without
a channel makes no live source; `Glib::TimeVal` subtraction normalises; what
libxml writes and parses is the DOM up to blank text in elements that hold no
other text (`Reformatted`), its `get_child_text` is the first text child, and the
order in which entries are saved may be any order; net6's conversion of numbers
to text and back is a parameter (`NumberText`). `unsigned long` has 64 bits, `unsigned int` 32, and
the clock reads less than 2^63 microseconds.

Where documentation and code disagree the model follows the code: `sobby.1` and
the option text say that an autosave directory disables the autosave file, but
both autosavers are created (`src/server.cpp:437-471`).

## Model

| member | source | states |
|---|---|---|
| IoCondition.BitByBit | src/gselector.cpp:29-51 | bit by bit: which poll conditions each interest flag asks for, when a report meets an interest, and what each reported bit tells the socket |
| IoCondition.MeetsMaskIffMeetsInterest | src/gselector.cpp:29-51 | the mask guard of `on_io` passes exactly when the emitted condition meets the socket's interest |
| IoCondition.Galois | src/gselector.cpp:29-51 | reported bits stay inside the mask of an interest iff the emitted condition stays inside the interest; the conversions lose only IO_TIMEOUT |
| Timing.AnswerIsRemaining | src/gselector.cpp:185-193 | the answer for an armed socket is max(1, T - floor(elapsed/1000)) despite the split arithmetic; with the clock set back the wrap-around gives 1 |
| Timing.AnswerNeverIncreases | src/gselector.cpp:177-194 | between armings the remaining time never grows and never falls below 1 |
| Timing.RearmMovesDeadlineByRemainder | src/gselector.cpp:177-227 | re-arming with the answer at the same instant moves the deadline on by exactly the microseconds cut off |
| Timing.RearmsDriftForward | src/gselector.cpp:177-227 | n re-armings never move the deadline back and move it on by at most 999 n microseconds |
| Timing.DriftBoundIsTight | src/gselector.cpp:177-227 | the bound of 999 microseconds per re-arming is reached |
| Timing.DueAtDeadlineExactly | src/gselector.cpp:196-227 | the timer of an arming, whose delay the main loop takes as an `unsigned int`, is due at the deadline iff the delay fits, else too early |
| SelectorSpec.SetIs | src/gselector.cpp:68-175 | `set` stores exactly the condition given, owns a channel only from being added for I/O, drops the timer iff IO_TIMEOUT is not asked for, touches no other socket |
| SelectorSpec.SetTimeoutIs | src/gselector.cpp:196-228 | `set_timeout` arms from now with the given delay iff IO_TIMEOUT is selected, and changes nothing else |
| SelectorSpec.EmissionIs | src/gselector.cpp:230-259 | a dispatch emits iff the report has a bit that the socket waits for, and exactly the reported bits; a timer always emits IO_TIMEOUT |
| SelectorSpec.NextIs | src/gselector.cpp:230-259 | what a dispatch and its return change: a fired timer is counted at once and removed on return |
| SelectorSpec.DeafIs | src/gselector.cpp:68-138 | deaf means to wait for incoming, outgoing or error without a channel |
| SelectorSpec.EveryRunConservesTimers | src/gselector.cpp:106-148 | in every state of every run, per socket: armings = fired + cancelled + 1 if one is waiting, and timers only where IO_TIMEOUT is selected |
| SelectorSpec.EveryEmissionIsWanted | src/gselector.cpp:230-259 | a dispatch emits only to a socket selected at that moment and only a condition that meets its interest; nothing unasked for if only the mask is reported |
| SelectorSpec.TimeoutIsOneShot | src/gselector.cpp:246-259 | dispatching a timer around any re-entrant handler, during which time may pass, equals removing it first and then running the handler: re-armed timers survive, others are gone |
| SelectorSpec.OnlySetTimeoutArms | src/gselector.cpp:196-228 | in any run nothing but `set_timeout` on it arms a socket |
| SelectorSpec.RearmedTimersDriftForward | src/gselector.cpp:177-228 | the drift bound for n rounds of `get_timeout` and `set_timeout` on the selector itself |
| SelectorSpec.DeafExactly | src/gselector.cpp:68-138 | a call leaves a socket waiting for I/O without a source iff it asks for I/O on an entry without a channel or on a new one that cannot be made non-blocking |
| SelectorSpec.OthersAreWatched | src/gselector.cpp:68-175 | a run keeps each socket waiting for I/O watched in all its states iff it makes no such call |
| SelectorSpec.TimeoutFirstThenInputIsDeaf | src/gselector.cpp:106-126 | the concrete run: IO_TIMEOUT first, IO_INCOMING later, and the input is never reported |
| SelectorSpec.FailedFcntlIsDeaf | src/gselector.cpp:68-86 | the concrete call: IO_INCOMING on a socket whose `fcntl` fails, which stays selected and is never reported |
| GSelectorModel.LiveSourcesAreTheWantedOnes | src/gselector.cpp:68-148 | the live sources are exactly one watch with the right mask per watched socket and one timer per armed socket, each once |
| GSelectorModel.EntryReplaced | src/gselector.cpp:68-138 | map and sources stay in agreement when one entry and its own sources change together |
| GSelectorModel.EntryRemoved | src/gselector.cpp:140-148 | removing an entry with its sources keeps the agreement and every other arming |
| GSelectorModel.EntryModified | src/gselector.cpp:106-138 | replacing the watch only when the I/O flags change and dropping the timer only when IO_TIMEOUT changes keeps the agreement |
| GSelectorModel.Added | src/gselector.cpp:68-104 | a new entry with its watch, or without one, amounts to setting the interest |
| GSelectorModel.Modified | src/gselector.cpp:106-138 | that incremental update amounts to setting the interest, and revives no source id |
| GSelectorModel.Deleted | src/gselector.cpp:140-148 | disconnecting both sources and erasing amounts to clearing the interest |
| GSelectorModel.Rearmed | src/gselector.cpp:216-227 | replacing the timer source amounts to arming with the current time |
| GSelectorModel.Returned | src/gselector.cpp:242-259 | removing the dispatched id after a timer handler is the machine's return step, whether or not the handler replaced the timer |
| GSelectorModel.EntriesAndSourcesAgree | src/gselector.cpp:68-148 | in plain terms: a live watch iff I/O is waited for with a channel, with the bits asked for; a live timer only with IO_TIMEOUT, with its due time; no other source |
| GSelectorModel.SetShows | src/gselector.cpp:68-175 | what `set` amounts to for the entries and the live sources of the socket and of all others |
| GSelectorModel.GSelector.AddSocket | src/gselector.cpp:68-104 | agreement kept, interest set; fails iff the socket cannot be made non-blocking, after the entry is in |
| GSelectorModel.GSelector.ModifySocket | src/gselector.cpp:106-138 | agreement kept, interest set, timer dropped iff IO_TIMEOUT is gone |
| GSelectorModel.GSelector.DeleteSocket | src/gselector.cpp:140-148 | agreement kept, no entry and no source of the socket left |
| GSelectorModel.GSelector.Get | src/gselector.cpp:150-158 | the interest of the socket, or none |
| GSelectorModel.GSelector.Set | src/gselector.cpp:160-175 | for every socket and condition: in the map afterwards iff the condition is not empty, with exactly that condition; watched for exactly its bits if it has a channel; its timer kept iff still waited for; other entries and timers unchanged; agreement kept |
| GSelectorModel.GSelector.GetTimeout | src/gselector.cpp:177-194 | 0 iff there is no live timer, else max(1, T - floor(elapsed/1000)) from what the entry holds |
| GSelectorModel.GSelector.SetTimeout | src/gselector.cpp:196-228 | arms exactly when IO_TIMEOUT is selected, otherwise fails and changes nothing; the new source is due after the delay asked for iff that fits into an `unsigned int` |
| GSelectorModel.GSelector.Emit | src/gselector.cpp:242-255 | any sequence of re-entrant calls, while time passes, keeps the agreement before and after each call |
| GSelectorModel.GSelector.OnIo | src/gselector.cpp:230-244 | emits iff the socket is in the map and the report meets its mask; keeps the source iff the socket is in the map |
| GSelectorModel.GSelector.OnTimeout | src/gselector.cpp:246-259 | emits iff the socket is in the map with IO_TIMEOUT, and always returns false |
| GSelectorModel.GSelector.Dispatch | src/gselector.cpp:230-259 | dispatching a live source is a step of the machine around its handler; from a live source the early returns that drop it are never taken; the id of a fired timer is gone |
| GSelectorModel.RunWatchesAll | src/gselector.cpp:68-175 | after a run without calls that cannot be watched, the wanted sources are one watch per socket with an I/O flag and one timer per armed socket |
| GSelectorModel.GSelector.Handle | src/gselector.cpp:57-259 | one event amounts to exactly its own steps of the machine: the clock, the call, or the dispatch of the source with that id around its handler |
| GSelectorModel.StepsForIs | src/gselector.cpp:57-259 | the steps of each kind of event, written out |
| GSelectorModel.AllAlongIs | src/gselector.cpp:57-259 | what is said of the moments of a run: sources unique per socket and kind, ids never reused |
| GSelectorModel.WantedIs | src/gselector.cpp:68-148 | exactly which watches and timers are wanted and called for |
| GSelectorModel.GSelector.Run | src/gselector.cpp:57-259 | any sequence of events with any handlers amounts to exactly their steps in order; before each event and in the end the live sources are the wanted ones, each once; between any two of these moments sources keep their ids and dead ids stay dead; unless a call asks for I/O that cannot be watched the sources are all that the map calls for |
| ConfigTree.LoadIs | src/config.cpp:151-163 | the first text decides: with any character but space, tab, newline and carriage return the element is a value of exactly that text, without one a parent of its child elements |
| ConfigTree.BlankElementsAreParents | src/config.cpp:151-163 | an element whose texts hold only these four characters, or that has none, is a parent of its child elements |
| ConfigTree.LoadKidsStep | src/config.cpp:143-164 | one more child element overwrites the entry of its name, other nodes do nothing |
| ConfigTree.LastDuplicateWins | src/config.cpp:140-165 | an entry for exactly the child elements' names, holding the last one of that name |
| ConfigTree.BlankTextIsNoValue | src/config.cpp:151-163 | without non-blank text an element loads as a parent |
| ConfigTree.SavedIs | src/config.cpp:177-187 | saving adds one element per entry, in any order, named after it, a value as its text, a parent as its entries |
| ConfigTree.BlankTextMayCome | src/config.cpp:306-318 | the text layer may put blank text anywhere among children without other text |
| ConfigTree.ChildrenMayBeReformatted | src/config.cpp:306-318 | and may do so at every level |
| ConfigTree.NormalIs | src/config.cpp:151-163 | what comes back of a tree: blank values as childless parents, everything else as it was |
| ConfigTree.KidsRoundTrip | src/config.cpp:140-187 | loading any reformatting of what saving added gives the entries back, blank values turned into childless parents |
| ConfigTree.EntryRoundTrip | inc/config.hpp:334-344 | the same for one entry |
| ConfigTree.SaveThenLoad | src/config.cpp:306-317 | for every tree, saving order and reformatting: load after save is the tree up to blank values, under the name `sobby_config` |
| ConfigTree.NormalExactlyWhenSolid | src/config.cpp:151-163 | the round trip is exact for the trees without blank values and for no others |
| ConfigTree.LoadedIsSolid | src/config.cpp:140-165 | every loaded value is non-blank |
| ConfigTree.LoadIsCanonical | src/config.cpp:140-187 | for every document, load(save(load(x))) = load(x) |
| ConfigEntry.EditIsLocal | src/config.cpp:225-242 | an edit changes nothing on paths that diverge from the one it names |
| ConfigEntry.EditTakesEffect | inc/config.hpp:398-433 | what is found under the edited name afterwards, given what was there |
| ConfigEntry.EditedAllIs | src/config.cpp:225-242 | edits take effect one after the other |
| ConfigEntry.ParentEntry.ValidIs | src/config.cpp:225-242 | the shape in plain terms: each key is its entry's name, subtrees lie inside and share no object |
| ConfigEntry.ParentEntry.DeletedIs | src/config.cpp:233-242 | what an edit deletes is the subtree it replaces at the end of its path |
| ConfigEntry.ParentEntry.FromElement | src/config.cpp:140-165 | the loading loop builds a fresh, well-shaped heap tree that holds exactly what the element loads as |
| ConfigEntry.ParentEntry.Save | src/config.cpp:177-187 | one element per entry, recursively, in map order whatever it is |
| ConfigEntry.ParentEntry.GetChild | src/config.cpp:189-199 | the entry of that name, or none |
| ConfigEntry.ParentEntry.GetParentChild | src/config.cpp:201-211 | the child parent, null exactly if there is no entry or it is a value |
| ConfigEntry.ParentEntry.GetValueChild | src/config.cpp:213-223 | the child value, none exactly if there is no entry or it is a parent |
| ConfigEntry.ParentEntry.GetValue | inc/config.hpp:398-407 | the stored value, or the default if there is none or it is a parent |
| ConfigEntry.ParentEntry.GetNumber | inc/config.hpp:398-407 | the same for numbers, failing where the conversion throws |
| ConfigEntry.ParentEntry.SupplyValue | inc/config.hpp:409-421 | an existing value is returned untouched, anything else is replaced by the default |
| ConfigEntry.ParentEntry.SetValue | inc/config.hpp:423-433 | only that key changes, shape kept, the replaced subtree is out of the tree |
| ConfigEntry.ParentEntry.SetParent | src/config.cpp:233-242 | a fresh empty child under that key, shape kept, the replaced subtree is out of the tree |
| ConfigEntry.ParentEntry.Index | src/config.cpp:225-231 | an existing parent is returned unchanged, anything else is replaced by a fresh one |
| ConfigEntry.ParentEntry.EditAt | src/config.cpp:225-242 | an edit anywhere in the heap tree keeps keys = names and disjoint subtrees, is the nested map edit, and makes what it deletes unreachable |
| ConfigEntry.ParentEntry.EditAll | src/config.cpp:189-242 | the same for every sequence of edits: nested map edits in order, nothing that any of them deletes is in the tree in the end, and only fresh objects ever enter it |
| ConfigFile.Config.constructor | src/config.cpp:266-269 | an empty root called `sobby_config` |
| ConfigFile.LoadConfig | src/config.cpp:271-304 | fails exactly on unparsable files; without a root node an empty configuration, else what the root loads as |
| ConfigFile.Config.Save | src/config.cpp:306-327 | a document under the fixed root name exactly when the directory can be had and the file written; directories created as by `create_path_to` either way |
| ConfigFile.SaveAndReload | src/config.cpp:271-327 | where saving succeeds, saving and loading through any text layer gives the same heap tree up to blank values |
| CreatePathModel.FileSystem.MakeDirectory | src/config.cpp:42-82 | `mkdir`: needs a directory above and nothing in its place |
| CreatePathModel.FileSystem.CreatePathTo | src/config.cpp:84-98 | terminates; success iff every ancestor is a directory or can be made one; the ancestors down to the first that cannot, and nothing else, are directories afterwards |
| CreatePathModel.ReachedIs | src/config.cpp:84-98 | how far a path can be followed and what is made on the way, in plain terms |
| CreatePathModel.ChainIs | src/config.cpp:84-98 | the prefixes down to a depth are directories, everything else is untouched |
| CreatePathModel.OnlyTheMissingIsCreated | src/config.cpp:84-98 | nothing that existed changes, everything new is a missing ancestor or the path itself |
| SettingsModel.Preset | src/server.cpp:108-160 | the stored settings with their defaults, or the conversion error |
| SettingsModel.Redefault | src/server.cpp:303-363 | what is still empty or zero is taken from the configuration or the defaults again |
| SettingsModel.ParseOptionsIs | src/server.cpp:244-301 | each option sets its own variable, be it empty; the session is an argument |
| SettingsModel.RefilledIs | src/server.cpp:307-363 | the second pass replaces exactly what is empty or zero, each by its own stored value |
| SettingsModel.RuleIs | src/server.cpp:108-363 | the rule with every key and default written out |
| SettingsModel.Resolve | src/server.cpp:105-363 | whether or not the option parser resets what is not given, each of the nine settings is its own option if given and not empty or zero, else what is stored under its own key, else its default (6522, "Standalone obby server", "autosave.obby", 0, ""); an unreadable stored number is an error even when overridden |
| SettingsModel.Write | src/server.cpp:365-384 | a fresh configuration holding the nine settings under "settings" |
| SettingsModel.NineAreWritten | src/server.cpp:370-382 | the nine keys and nothing else are written under "settings" |
| SettingsModel.WriteThenRead | src/server.cpp:303-388 | for any settings: writing, reformatting, loading and resolving gives them back iff the numbers convert back and no string is blank without being its default |
| SettingsModel.ResolvedSettingsComeBack | src/server.cpp:108-388 | resolved settings are a fixpoint of write and read iff none of their strings is non-empty and blank |
| SettingsModel.NamesAreNotEmpty | src/server.cpp:303-363 | resolved settings always have a name and an autosave file |
| AutosaveFolderModel.PathIs | src/autosave_folder.cpp:93-98 | a document's path is the folder, a slash and a name without slashes, which is the title or follows the last slash of it |
| AutosaveFolderModel.NameIsUnique | src/autosave_folder.cpp:93-96 | there is only one such name for a title |
| AutosaveFolderModel.LastWriterWins | src/autosave_folder.cpp:92-110 | per path the last written document's content stays |
| AutosaveFolderModel.UnwrittenKeepsFile | src/autosave_folder.cpp:92-110 | files at paths no written document has do not change |
| AutosaveFolderModel.EffectFailsExactly | src/autosave_folder.cpp:87-108 | a save fails iff some dirty document cannot be opened, and then at the first of them in map order; it writes exactly the dirty documents before that one |
| AutosaveFolderModel.EffectIs | src/autosave_folder.cpp:83-118 | the effect of a save on flags and failures in plain terms: when it fails, who is written, which flags stay |
| AutosaveFolderModel.FilesAre | src/autosave_folder.cpp:92-110 | and on files: each written document under its base name in the folder, the last of a name with its content, every other file as it was |
| AutosaveFolderModel.EffectIsDetermined | src/autosave_folder.cpp:83-118 | the state and the openable paths settle what a save does |
| AutosaveFolderModel.FileAfterSave | src/autosave_folder.cpp:92-110 | the file of a document that is written or was current holds its content afterwards iff the last document written there has that content |
| AutosaveFolderModel.CoherenceKeptExactly | src/autosave_folder.cpp:83-118 | for any titles, shared files included: a save leaves clean, non-failed documents current iff it overwrites none of their files with other content, told from the state before |
| AutosaveFolderModel.CleanStaysCurrentExactly | src/autosave_folder.cpp:83-118 | a save keeps "clean means the file is current" iff it overwrites no such file and does not fail, or stops at a document that has its content in its file already |
| AutosaveFolderModel.PlainPromiseKeptExactly | src/autosave_folder.cpp:83-118 | the same condition checkable before the save: nothing overwritten, and the first dirty unopenable document in map order, if any, has its content in its file |
| AutosaveFolderModel.EffectKeepsCoherence | src/autosave_folder.cpp:83-118 | while no two documents share a path, a save leaves every clean, non-failed document equal to its file |
| AutosaveFolderModel.EffectMakesProgress | src/autosave_folder.cpp:83-118 | a failing save strictly shrinks the dirty set and removes exactly one unopenable document from it; a successful one empties it |
| AutosaveFolderModel.WalkStops | src/autosave_folder.cpp:102-108 | stopping at the first unopenable document has the stated effect |
| AutosaveFolderModel.FailedSaveCleansTheFlag | src/autosave_folder.cpp:90-108 | the concrete case: a document that cannot be opened ends up clean and unwritten |
| AutosaveFolderModel.SharedFileIsOverwritten | src/autosave_folder.cpp:93-98 | the concrete case: two titles with the same last component, and the clean one's file gets the other's content |
| AutosaveFolderModel.CoherentAllAlongExactly | src/autosave_folder.cpp:60-123 | clean, non-failed documents are current in every state of a run iff no save of it overwrites such a file |
| AutosaveFolderModel.TraceIsUnique | src/autosave_folder.cpp:60-123 | the events and the first state settle all states of a run |
| AutosaveFolderModel.SteppedIs | src/autosave_folder.cpp:60-123 | what each event does: the document inserted or changed becomes dirty, the one removed is forgotten, no other is touched |
| AutosaveFolderModel.AutoSaveFolder.Insert | src/autosave_folder.cpp:60-66 | tracked and dirty, coherence kept |
| AutosaveFolderModel.AutoSaveFolder.Remove | src/autosave_folder.cpp:68-71 | no longer tracked and no longer counted as failed, coherence kept |
| AutosaveFolderModel.AutoSaveFolder.Change | src/autosave_folder.cpp:73-76 | dirty, coherence kept |
| AutosaveFolderModel.AutoSaveFolder.Save | src/autosave_folder.cpp:83-118 | an error iff a dirty document cannot be opened; exactly the dirty documents before the first such are written and cleaned, each to its base name in the folder, the last of a name winning; that one cleaned but unwritten, later flags kept, no other file changed; coherence kept iff no clean document's file is overwritten |
| AutosaveFolderModel.SavedSomeMore | src/autosave_folder.cpp:83-118 | successive saves write the dirty openable documents once each and in map order, across failures |
| AutosaveFolderModel.AutoSaveFolder.SaveUntilClean | src/autosave_folder.cpp:83-123 | with f dirty unopenable documents, after at most f + 1 saves nothing is dirty, exactly the openable dirty ones have been written, in map order, and the disk is what these writes make of it, path collisions included |
| AutosaveFolderModel.AutoSaveFolder.Run | src/autosave_folder.cpp:60-123 | over every run the states are those the events lead to, the tracked documents are the server's in all of them, and clean, non-failed ones equal their files in all of them iff no save overwrites such a file |
| AutosaverModel.AutoSaver.Save | src/autosaver.cpp:84-118 | a failing serialise changes neither flag nor file; a failing hook is an error but leaves both in agreement |
| AutosaverModel.AutoSaver.OnTimer | src/autosaver.cpp:120-124 | saves only when modified |
| AutosaverModel.AutoSaver.OnDocumentRemove | src/autosaver.cpp:70-72 | does not count as a modification |
| AutosaverModel.SinceTheLastSave | src/autosaver.cpp:62-124 | after any run: the file is the session as of the last event that wrote it, the flag is set iff something was inserted or changed since, and what the file has too much are the removals since |
| AutosaverModel.CurrentExactly | src/autosaver.cpp:62-124 | a clear flag means that the file equals the session iff no removal came after the last successful save |
| AutosaverModel.RemovalsAreNotWritten | src/autosaver.cpp:70-124 | removals alone are never written by the timer, however often it fires |
| AutosaverModel.AutoSaver.Handle | src/autosaver.cpp:62-124 | each event in plain terms; a save that is asked for writes whether or not anything was modified, the timer only if |
| AutosaverModel.AutoSaver.Run | src/autosaver.cpp:62-124 | over every run the state is what the events make of it; a requested save at the end leaves the file equal to the session; a clear flag means the buffer differs from the saved session by exactly the removals since, and not at all iff none came after the last successful save |
| CommandExecuterModel.OneMoreEvent | src/command_executer.cpp:126-133 | what is collected is the bytes of the reads, in their order |
| CommandExecuterModel.CollectsOwnOutput | src/command_executer.cpp:126-133 | what is collected is exactly the part of the command's output that has been read, and all of it after a read that reached the end |
| CommandExecuterModel.HangUpLosesPendingInput | src/command_executer.cpp:123-126 | the concrete case of lost output: hang-up reported with input pending |
| CommandExecuterModel.CompleteExactly | src/command_executer.cpp:119-143 | what is collected at the end is the whole output iff all of it had been read as the ending event arrived; a read that reached the end never comes earlier |
| CommandExecuterModel.AccountsForOneMore | src/command_executer.cpp:119-143 | one wake-up extends or closes the account of its descriptor |
| CommandExecuterModel.CommandExecuter.Watch | src/command_executer.cpp:96-104 | registering a new descriptor keeps all accounts |
| CommandExecuterModel.CommandExecuter.OnOut | src/command_executer.cpp:119-143 | the exact change of table and messages for every condition and read result: the bytes read are appended, or the entry is sent and erased |
| CommandExecuterModel.CommandExecuter.Dispatch | src/command_executer.cpp:119-143 | under any interleaving every account stays right and only the finished watch goes |
| CommandExecuterModel.CommandExecuter.OneMessagePerCommand | src/command_executer.cpp:119-143 | a running command has sent nothing and its entry is what was read of its output; a finished one has sent exactly one message, what was read before the ending event, the whole output iff that was all, and has no entry |
| SplitModel.Split | src/server.cpp:43-55 | joining the pieces gives the line back, no piece holds the separator, one more piece than separators |
| SplitModel.PiecesAreUnique | src/server.cpp:43-55 | separator-free lists with the same join are equal |
| SplitModel.JoinIs | src/server.cpp:43-55 | joining puts one separator between neighbouring pieces |
| SplitModel.SplitJoined | src/server.cpp:43-55 | splitting a join gives the list back |

## Left out

- The `GSelector` destructor and the teardown by `sigc::trackable`: part of it is done by library code.
- A handler that lets an exception through, and a main loop run from within a handler: the model's handlers make calls while time passes, and return.
- When exactly the main loop fires a timer: any live source may be dispatched at any time, due or not.
- ConfigEntry.ParentEntry.Save: the order of the entries is that of Glib's collation in the source and arbitrary here; every theorem holds for all orders.
- ConfigEntry.ParentEntry.EditAt: value entries are values in the map, not objects of their own; they never change after they are made.
- Entries replaced while loading a duplicate element are leaked by the source; the model only has that they are no longer in the tree.
- CreatePathModel.FileSystem.CreatePathTo: for normalised paths below "/" or "."; there is no removal of directories in between.
- SettingsModel.Resolve: the settings are locals of one function instead of fields and locals of the server's constructor, and its three blocks are three methods; option declarations, help and the interactive flag are not part of this model.
- AutosaveFolderModel.AutoSaveFolder.Save: a write to an opened file is all or nothing, titles do not change, and a path is the folder, a slash and the file name, without Glib's trimming of separators.
- AutosaverModel.AutoSaver.Save: a session that fails to serialise leaves the old file, and user table changes are not part of the session.
- CommandExecuterModel.CommandExecuter.OnOut: a message carries its descriptor, which the source does not send; spawning is reduced to the registration of a descriptor not used before.
- Starting documents, zeroconf, the interactive prompt, signal handlers and the printing of users and documents: plumbing and user interface.
