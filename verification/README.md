# Loregarden: installers, backend lifecycle and small cores

A Dafny model of the parts of loregarden whose mistakes are hardest to see: the
installers that edit files another repository owns, the protocol by which the
desktop shell starts and ends its backend, and four small algorithms of the
client and the sprite generator. `dafny verify dfyconfig.toml` checks all of it.

## What is modelled

**The installers.** A file is text and mode (`Files.dfy`); its lines are strings
over Python's own white space (`Text.dfy`) and line boundaries (`Lines.dfy`, which
also says what a reader finds of lines that have boundaries in them).
`ManagedBlock` finds the delimited block. `Forest` is the tree an
indentation-structured file denotes, where a line's parent is the nearest earlier
non-blank line indented less; comments count as structure, because the code counts
them. `CommandsMap` locates the `commands:` map, `HookBlock` puts the block into it,
and `HookInstaller` is the whole run, `--check` and lore-eden's displacement
included. `AgentsDoc` and `AgentsInstaller` are the same for AGENTS.md. Each
installer is a method that changes a `Directory` object and is proved against a
function from the old file to the new one; runs, sequences of runs, kills and reruns
are then theorems about that function. `HookText` and `DocText` give the blocks'
wording, show that the theorems apply to it, and reduce their conditions to the
arguments of the command line.

**The lifecycle.** `Lifecycle` is a step relation over every interleaving of the
startup task, the signal thread, the event loop, the backend, its watchdog, a
crash of the shell and the clock. `Polling` holds the two deadline loops.

**Small cores.** `DiffReview` (grouping a flat diff, the side-by-side rows, the
comment panes), `Raster` and `Png` (the clipping rasteriser and the PNG writer
with an independent decoder), `Sidebar` (moves inside a drawn section).

## Where the code falls short, exactly

A path or a slug may have line boundaries in it, and the code accepts them. A block
with such a line is written as it is and read back in pieces, and the theorems about
runs cover that case.

- A second run leaves the same bytes and the same mode, always
  (`HookInstaller.SameBytes`, `AgentsInstaller.SameBytes`).
- It returns 0 exactly when no line of the block breaks into one that is a marker
  (`HookInstaller.Idempotent`, `AgentsInstaller.Idempotent`); otherwise every later run
  refuses the file. `HookText.MarkerPath` and `DocText.MarkerSlug` are inputs for which
  it does.
- `--check` agrees with the install before it exactly when the block is made of lines
  (`CheckAfterInstallIff` in both installers): when the checkout's path has no line
  boundary (`HookText.PathDecides`), and when the two paths and the slug argument have
  none (`DocText.ArgumentsDecide`). `HookText.TornPath` and `DocText.TornSlug` are inputs
  for which it does not.
- History independence holds of every sequence of runs after one that wrote; the
  checkout whose block stands is the last install's unless a block that breaks into a
  marker came first (`HookInstaller.HistoryIndependent`).
- A slug comes back as given exactly when it is a line, is not empty and has no white
  space around it (`AgentsDoc.SlugSurvivesIff`). A blank one is rendered and erases the
  recorded one (`AgentsInstaller.RememberedIs`).
- The hook installer's "already current" compares the block and not its place;
  `HookInstaller.CurrentInPlaceIff` says when such a file is the one an install would
  write.
- The managed key is an entry of the map exactly when no line of the map is shallower
  than its first entry (`HookBlock.KeyIsEntryIff`); `HookText.UnevenMap` is a file where
  it is not.
- A stroke is the border of its rectangle exactly when width and height are both at
  least one or neither is (`Raster.StrokeIsBorderIff`).
- The watchdog's look ends an orphan exactly when the shell's pid has not been reused
  (`Lifecycle.DueLookEnds`); with any poll interval there are runs in which it has and
  the backend outlives the bound by any excess (`Lifecycle.ReusedPidKeepsOrphan`). The
  bound counts from when a look is due: a look is not put off by the scheduler.
- A readiness task that panics drops the child's handle without `terminate`
  (src-tauri/src/main.rs:151-155). The ownership theorems count this case apart.
- The signal thread holds the mutex while it terminates the child, since the guard in
  an `if let` lives to the end of its body in the crate's edition; the event loop lets
  it go first (src-tauri/src/main.rs:94, 119).

Where the code and its own documentation differ, the code is modelled:

- `find_commands_map` is documented to return the index after `commands:` and returns
  that of `commands:` (scripts/install_workspace_hooks.py:85, 116).
- `write_lines` is documented to keep a file's permissions; it keeps the mode exactly
  when the set-user-id, set-group-id and sticky bits are clear (`Files.ModeKeptIff`;
  scripts/managed_block.py:90-92).
- Line endings are documented to be kept; a file read and written back keeps its bytes
  exactly when it has a line and every line, the last included, ends as its first line
  feed says (`Lines.BytesKeptIff`; scripts/managed_block.py:16, 52-54).
- AGENTS.md's own content is documented never to be touched; an install keeps its lines
  and their order exactly when they end in one empty line or there are none
  (`AgentsInstaller.OwnLinesKeptIff`;
  scripts/install_workspace_agents_doc.py:10-11, 148-155).

## Model

| member | source | states |
|---|---|---|
| `Text.StripUnique` | scripts/managed_block.py:66-67 | `strip` returns the one core with no white space around it that stands between two runs of white space, and the indent is the length of the first run |
| `Text.StripsToIff` | scripts/managed_block.py:66-67 | a line strips to a trimmed text exactly when it is that text between characters of the listed white space |
| `Text.BlankIff` | scripts/install_workspace_hooks.py:109-125 | a line counts as blank exactly when every character in it is one of the listed white-space characters |
| `Lines.ReadWritten` | scripts/managed_block.py:41-54 | reading back any non-empty list of boundary-free lines written with either ending returns the same lines and the same ending |
| `Lines.WrittenSurvivesIff` | scripts/managed_block.py:97 | written lines are read back as they were exactly when there are some and none has a line boundary in it |
| `Lines.RereadWritten` | scripts/managed_block.py:54-97 | whatever the lines, reading what was written finds each of them broken at its own boundaries, one after the other |
| `Lines.IsOneLineIff` | scripts/managed_block.py:54 | a text is one line exactly when it is not empty and holds none of LF, CR, VT, FF, FS, GS, RS, NEL, U+2028 and U+2029 |
| `Lines.SplitLosesOnlyEndings` | scripts/managed_block.py:54 | any text is its lines with CR LF or one of those ten characters after each, the last one possibly missing: `splitlines` loses the terminators and nothing else |
| `Lines.NewlineIs` | scripts/managed_block.py:52-53 | the ending found is CR LF exactly when the text is some text without a line feed, CR LF, and the rest; otherwise LF |
| `Lines.WriteAfterRead` | scripts/managed_block.py:41-104 | writing back what was read changes terminators and the final newline only, reads back the same, and is idempotent |
| `Lines.BytesKeptIff` | scripts/managed_block.py:52-97 | reading and writing back keeps the bytes exactly when there is a line and every line, the last included, ends as the first line feed says |
| `ManagedBlock.SplitsExactly` | scripts/managed_block.py:57-80 | a file is accepted exactly when it is marker-free or is marker-free lines, one block delimited by a begin and an end with no marker between, and marker-free lines |
| `ManagedBlock.SplitsByLine` | scripts/managed_block.py:66-80 | by line numbers: a file is accepted exactly when no line is either marker between white space, or just one line is the begin marker and just one later line the end marker |
| `ManagedBlock.SplitIs` | scripts/managed_block.py:79-80 | in the latter case the block is the lines from the one to the other and the rest is what stands before and after |
| `ManagedBlock.DecompositionUnique` | scripts/managed_block.py:60-65 | there is at most one such decomposition, so no boundary is ever guessed |
| `ManagedBlock.SplitOfDecomposed` | scripts/managed_block.py:79-80 | the split of a decomposed file is exactly the outside and the block |
| `ManagedBlock.SplitReinserts` | scripts/managed_block.py:79-80 | what is left outside is marker-free, and putting the block back at one place rebuilds the file |
| `ManagedBlock.SplitOfInserted` | scripts/managed_block.py:79-80 | a block put anywhere into marker-free lines is found again, with those lines as the rest |
| `ManagedBlock.SplitAround` | scripts/managed_block.py:66-80 | marker-free lines around a begin marker, any lines and an end marker are split there, or refused, as the lines between are marker-free or not |
| `Files.Directory.WriteLines` | scripts/managed_block.py:89-104 | whatever fails and wherever it is killed, the path is the old file with its old mode or the whole new file with the old permission bits (a new file's from the umask), the new one only as the last step; no temporary file of its own is left when it returns or raises; a link is refused untouched |
| `Files.ModeKeptIff` | scripts/managed_block.py:90-100 | a replaced file keeps its mode exactly when the three bits above its permission bits are clear |
| `Forest.ParentIff` | scripts/install_workspace_hooks.py:105-130 | the parent of a line is the nearest earlier non-blank line that is indented less |
| `Forest.RegionIsDescendants` | scripts/install_workspace_hooks.py:119-130 | the lines up to the next one not deeper than a line are exactly that line's descendants |
| `Forest.AboveMoved` | scripts/install_workspace_hooks.py:182-183 | looking for a parent from below an insertion finds the line it found before, moved, unless it could stop inside it |
| `Forest.InsertKeepsParents` | scripts/install_workspace_hooks.py:182-183 | deeper lines put in after a region's last line change no other line's parent |
| `CommandsMap.FindCommandsMap` | scripts/install_workspace_hooks.py:84-116 | the three loops compute the place the specification names |
| `CommandsMap.LocatesExactly` | scripts/install_workspace_hooks.py:90-103 | with the section the first line that begins with `pre-commit:`, a place is found exactly when there is such a line and some `commands:` line is under it, and it is the first one that is |
| `CommandsMap.EntryIsFirstDescendant` | scripts/install_workspace_hooks.py:105-115 | the entry indent is that of the first line under `commands:` |
| `CommandsMap.EntryOfEmptyMap` | scripts/install_workspace_hooks.py:106 | with nothing under `commands:` it is two more than that of `commands:` |
| `CommandsMap.EndOfCommandsMap` | scripts/install_workspace_hooks.py:119-134 | the loop and the backward loop compute the place after the map's last non-blank line |
| `CommandsMap.InsertsAfterLast` | scripts/install_workspace_hooks.py:119-134 | the insertion place is just after the last line with text under `commands:`, or after `commands:` itself when there is none |
| `CommandsMap.MapIsDescendants` | scripts/install_workspace_hooks.py:119-130 | the delimited map holds all descendants of its `commands:` line and no other line with text |
| `HookBlock.RenderDelimits` | scripts/install_workspace_hooks.py:51-66 | the block, at any indent, begins and ends with its markers and has none inside |
| `HookBlock.InstallKeepsParents` | scripts/install_workspace_hooks.py:171-183 | after an install every line of the workspace's own stands where it is expected and has the parent it had |
| `HookBlock.BlockUnderCommands` | scripts/install_workspace_hooks.py:171-183 | every line of the block is a descendant of `commands:` |
| `HookBlock.BlockUnderSection` | scripts/install_workspace_hooks.py:90-103 | and of the first line that begins with `pre-commit:`, which stays where it was |
| `HookBlock.KeyIsEntryIff` | scripts/install_workspace_hooks.py:105-115 | the managed key is a child of `commands:` exactly when no line of the map is shallower than its first entry |
| `HookBlock.SettingsUnderKey` | scripts/install_workspace_hooks.py:58-63 | the three settings are children of the managed key |
| `HookBlock.Relocates` | scripts/install_workspace_hooks.py:84-134 | on the file just written, block included, the same `commands:` line and entry indent are found and the end of the map is just after the block |
| `HookBlock.DefinesIff` | scripts/install_workspace_hooks.py:76-81 | a line counts as defining a name exactly when it is that name and one or more colons once stripped |
| `HookBlock.OneDefinition` | scripts/install_workspace_hooks.py:69-81 | without a collision, exactly one line of the installed file defines the managed key, the block's own |
| `HookText.HookTemplateValid` | scripts/install_workspace_hooks.py:24-66 | the nine lines the code writes meet every assumption of the theorems, whatever the checkout's path |
| `HookText.HookTemplatePlainIff` | scripts/install_workspace_hooks.py:47-66 | they are nine lines of text exactly when the path has no line boundary in it |
| `HookText.HookTemplateHarmlessIff` | scripts/install_workspace_hooks.py:47-66 | they break into no marker exactly when the one line with the path does not |
| `HookText.RunsDispatcher` | scripts/install_workspace_hooks.py:58-66 | in the installed file the managed key, its name, its priority and the line that runs this checkout's dispatcher stand at their places, indented by spaces, the last one a child of the key |
| `HookText.InstallSucceedsIff` | scripts/install_workspace_hooks.py:150-201 | the same condition as `HookInstaller.SucceedsIff` for the actual marker and the key `loregarden-gates` |
| `HookText.PathDecides` | scripts/install_workspace_hooks.py:150-185 | after an install beside no lore-eden block, a rerun returns 0 exactly when the line with the path breaks into no marker, and `--check` exactly when the path has no line boundary |
| `HookText.UnevenIsAccepted` | scripts/install_workspace_hooks.py:150-185 | a four-line file that an install from any checkout writes to, the two failing paths included |
| `HookText.TornPath` | scripts/install_workspace_hooks.py:174-180 | with a vertical tab in the path `--check` never accepts the block just installed |
| `HookText.MarkerPath` | scripts/install_workspace_hooks.py:150-152 | with the begin marker on a line of the path the file just written is refused |
| `HookText.UnevenMap` | scripts/install_workspace_hooks.py:105-115 | a four-line configuration in which the installed key is not an entry of the map |
| `HookInstaller.Install` | scripts/install_workspace_hooks.py:137-201 | a run leaves the file and the code the decision says; at every moment in between the path is the file from before or the one an undisturbed run leaves; a check, a refusal and an up-to-date file write nothing |
| `HookInstaller.HasLineIff` | scripts/install_workspace_hooks.py:154 | lore-eden's gates count as present exactly when some line is its marker between white space |
| `HookInstaller.SucceedsIff` | scripts/install_workspace_hooks.py:150-201 | an install returns 0 exactly when the file is text that can be split and, outside the block, lore-eden's marker is there or a map is found and no line is the managed key and colons; otherwise 1, whatever the old block looks like |
| `HookInstaller.InstalledReread` | scripts/install_workspace_hooks.py:182-183 | the installed configuration, written and read, splits into the workspace's own lines and the block as a reader finds it, or is refused when a line of the block breaks into a marker |
| `HookInstaller.WriteReadsBack` | scripts/install_workspace_hooks.py:150-201 | a run that writes leaves the one file for the own lines, their ending and its checkout, never an empty one, and it reads back line for line when the block is made of lines |
| `HookInstaller.SameBytes` | scripts/install_workspace_hooks.py:150-201 | on every file and for every path, a second run leaves identical bytes and mode |
| `HookInstaller.Idempotent` | scripts/install_workspace_hooks.py:150-201 | after a run that returns 0 the same run leaves the identical file, and returns 0 exactly when lore-eden displaced the block or no line of it breaks into a marker |
| `HookInstaller.CheckIsExact` | scripts/install_workspace_hooks.py:174-198 | `--check` never writes and returns 0 exactly when an install would return 0 without writing, spelled out as a condition on the file |
| `HookInstaller.CheckAfterInstallIff` | scripts/install_workspace_hooks.py:171-198 | after a run that returns 0, `--check` returns 0 exactly when lore-eden displaced the block or it is free of line boundaries |
| `HookInstaller.CurrentInPlaceIff` | scripts/install_workspace_hooks.py:174-176 | a file reported current is the one an install would write exactly when its block is at the end of the map |
| `HookInstaller.KilledThenRerun` | scripts/install_workspace_hooks.py:150-185 | a rerun after a kill at any step gives the bytes and mode of the run that was not killed, for every path |
| `HookInstaller.RunsPreserve` | scripts/install_workspace_hooks.py:150-201 | no sequence of installs and checks from any checkouts changes the line ending or the permission bits; the own lines are what they were or the file is refused, and the latter only if an installed block breaks into a marker |
| `HookInstaller.HistoryIndependent` | scripts/install_workspace_hooks.py:150-185 | once a run has written, after any further runs the file is determined by the own lines, ending, mode and the standing checkout, the last install's when no block breaks into a marker |
| `HookInstaller.RemovalRestores` | scripts/install_workspace_hooks.py:188-201 | once lore-eden's gates are anywhere outside the block, the next install leaves exactly the lines outside it |
| `AgentsDoc.FindSlug` | scripts/install_workspace_agents_doc.py:137-145 | the loop returns the slug of the first line that records one |
| `AgentsDoc.SlugInIsFirst` | scripts/install_workspace_agents_doc.py:139-145 | the slug found is that of the first line that records any |
| `AgentsDoc.SlugOfIff` | scripts/install_workspace_agents_doc.py:140-144 | a line records a slug exactly when, white space around it aside, it is the field, the slug between white space, and the end of a comment |
| `AgentsDoc.SlugSurvivesIff` | scripts/install_workspace_agents_doc.py:57-62 | a reader of a written section finds the slug it was rendered for exactly when that is a line, non-empty and trimmed |
| `AgentsDoc.VisibleIsKept` | scripts/install_workspace_agents_doc.py:137-145 | a slug that is a line with something visible in it is found again, stripped, whatever the paths |
| `AgentsDoc.BlankIsNotKept` | scripts/install_workspace_agents_doc.py:137-145 | a blank slug is not found, nor anything else in its place |
| `AgentsDoc.RenderFacts` | scripts/install_workspace_agents_doc.py:57-134 | the section is delimited by its markers whatever the checkout's paths and the slug |
| `AgentsDoc.DropBlankIsBody` | scripts/install_workspace_agents_doc.py:150-152 | what is kept is a prefix of the own lines that ends in a line with a visible character, and every line dropped is all white space |
| `AgentsDoc.ComposeLines` | scripts/install_workspace_agents_doc.py:148-155 | the popping loop returns such a prefix, one blank line if it is not empty, and the section |
| `AgentsDoc.ComposeSplits` | scripts/install_workspace_agents_doc.py:148-155 | what was composed, written and read splits into the lines put in front and the section as a reader finds it, or is refused when a line of it breaks into a marker |
| `AgentsInstaller.Install` | scripts/install_workspace_agents_doc.py:158-213 | a run leaves the file and the code the decision says; at every moment in between the path is as before or as an undisturbed run leaves it; a check or refusal writes nothing |
| `AgentsInstaller.SucceedsIff` | scripts/install_workspace_agents_doc.py:184-213 | an install returns 0 exactly when there is no file or it is text, and the lines can be split; otherwise 1 |
| `AgentsInstaller.StepLeaves` | scripts/install_workspace_agents_doc.py:184-213 | an install that is not refused leaves the own lines up to the last one with text, one blank line and the section for this checkout and slug as a reader finds it, also when it creates the file; and when the file can be split again |
| `AgentsInstaller.StepKeepsEndingAndMode` | scripts/install_workspace_agents_doc.py:208 | an existing file keeps its line ending and permission bits |
| `AgentsInstaller.SameBytes` | scripts/install_workspace_agents_doc.py:184-213 | on every file and for every path and slug, a second run leaves identical bytes and mode |
| `AgentsInstaller.Idempotent` | scripts/install_workspace_agents_doc.py:195-213 | an install that is not refused can be repeated with identical bytes, with code 0 exactly when no line of the section breaks into a marker, a file just created included |
| `AgentsInstaller.CheckAfterInstallIff` | scripts/install_workspace_agents_doc.py:195-206 | `--check` after an install returns 0 exactly when the section is free of line boundaries |
| `AgentsInstaller.OwnLinesKeptIff` | scripts/install_workspace_agents_doc.py:148-155 | the own lines and their order are untouched exactly when they end in one empty line or there are none |
| `AgentsInstaller.CheckIsExact` | scripts/install_workspace_agents_doc.py:195-206 | `--check` never writes and returns 0 exactly when an install would return 0 without writing |
| `AgentsInstaller.KilledThenRerun` | scripts/install_workspace_agents_doc.py:184-213 | a rerun after a kill at any step gives the file of the run that was not killed, for every path and slug |
| `AgentsInstaller.RunsRemember` | scripts/install_workspace_agents_doc.py:191-208 | over any sequence of runs with any paths and slugs the ending stays, and one prefix of the own lines survives, ending in a line with text and with nothing but white space after it before and now, each recorded slug what a reader finds of the one installed; or the file is refused, never with boundary-free arguments |
| `AgentsInstaller.RememberedIs` | scripts/install_workspace_agents_doc.py:137-193 | with boundary-free arguments the slug remembered is the last explicit one, else the one recorded before, else the placeholder once installed; a blank explicit one erases it |
| `AgentsInstaller.HistoryIndependent` | scripts/install_workspace_agents_doc.py:184-213 | after any runs that have not got the file refused an install leaves what the original lines, its own checkout and the remembered slug determine, for every path and slug |
| `DocText.DocTemplateValid` | scripts/install_workspace_agents_doc.py:35-134 | the markers, the slug field, the placeholder and the lines with something filled in meet every assumption of the theorems, around any fixed wording with a character no marker has |
| `DocText.SectionReads` | scripts/install_workspace_agents_doc.py:57-134 | the slug line second, the three commands with the checkout's client and the slug together between the two stretches of wording, each in order, the reference last but one |
| `DocText.Created` | scripts/install_workspace_agents_doc.py:188-210 | the whole file an install makes where there is none: text, line feeds and mode |
| `DocText.ArgumentsDecide` | scripts/install_workspace_agents_doc.py:184-206 | `--check` after an install returns 0 exactly when neither path nor the slug argument has a line boundary |
| `DocText.TornSlug` | scripts/install_workspace_agents_doc.py:195-206 | with a vertical tab in the slug `--check` returns 1 on the file just installed, whatever it was |
| `DocText.MarkerSlug` | scripts/install_workspace_agents_doc.py:190 | with the begin marker on a line of the slug the section breaks into a marker |
| `Lifecycle.OneOwner` | src-tauri/src/main.rs:39-125 | in every interleaving a spawned child has exactly one owner until it has been terminated or dropped, and it is passed to `terminate` at most once, the not-ready path included |
| `Lifecycle.TerminatedIsGone` | src-tauri/src/backend.rs:42-77 | once a call of `terminate` has returned the backend is gone, or was killed and has yet to go; having seen the exit means it is gone |
| `Lifecycle.TerminateStarts` | src-tauri/src/main.rs:94-122 | `terminate` is called in just three steps, by the startup task on a timeout and by a handler that finds a child in the slot and empties it, with a deadline one grace away |
| `Lifecycle.ReturnSawExitOrKilled` | src-tauri/src/backend.rs:54-66 | a call kills exactly when its deadline has come and otherwise returns only on an exit that was seen; either way the backend is gone or condemned |
| `Lifecycle.LiveBackendHasHandle` | src-tauri/src/main.rs:39-165 | a live backend's handle is with the startup task, in the slot, inside `terminate`, or was dropped by a panicked readiness task |
| `Lifecycle.ExitHandled` | src-tauri/src/main.rs:105-125 | when an exit event has been handled the slot is empty, the signal thread is not inside `terminate`, and a child that had been stored is gone or killed; only `Exit` ends the loop |
| `Lifecycle.ReadyBeforeStored` | src-tauri/src/main.rs:39-167 | a child is in the slot only after it was spawned and became ready |
| `Lifecycle.ShellEnds` | src-tauri/src/main.rs:92-125 | the shell goes down in just four kinds of step |
| `Lifecycle.BackendEnds` | server/loregarden/__main__.py:29-55 | a live backend stops being one by exiting, by a kill after the grace, or by a look that finds the shell dead under a pid not reused; in no other step |
| `Lifecycle.NoOrphan` | server/loregarden/__main__.py:29-69 | wherever the shell is dead and the backend alive, the backend was given the shell's pid, its watchdog, once started, watches that pid, and no more than one poll interval has passed since the later of the death and the watchdog's start |
| `Lifecycle.ClockAdvances` | server/loregarden/__main__.py:50-52 | the bound is not met by stopping the clock: time can always move on, at once or after a due look |
| `Lifecycle.DueLookEnds` | server/loregarden/__main__.py:17-55 | a look ends the backend exactly when the shell is dead and its pid not reused; otherwise it changes nothing and the next one is a poll interval away |
| `Lifecycle.ReusedPidKeepsOrphan` | server/loregarden/__main__.py:17-26 | for every poll interval and every excess, a run in which a reused pid keeps the backend alive past the bound by more than that |
| `Lifecycle.ShutdownPossible` | src-tauri/src/main.rs:81-102 | no reachable state with the shell up is a dead end: a signal can bring it down, with the watchdog ending what is left |
| `Lifecycle.OrderlyRun` | src-tauri/src/main.rs:39-125 | the orderly run from start to exit can happen, in development and packaged |
| `Polling.Child.Terminate` | src-tauri/src/backend.rs:42-77 | looks at once and every 100 milliseconds until the grace is over; returns at the first look that sees the exit, and otherwise kills at the first wakening past the grace; the signals sent and their times; a process that exits more than one sleep before the deadline is never killed |
| `Polling.Child.WaitUntilReady` | src-tauri/src/backend.rs:80-90 | tries at once and every interval until the timeout is over; succeeds at the first try that finds the port open, and gives up only if none did; one open more than a sleep before the deadline is found |
| `DiffReview.HeaderPathIff` | client/src/components/InlineCodeDiffReview.tsx:45 | a line is a header for a path exactly when it is `+++ b/` and the path, which is not empty and has no end of line in JavaScript's sense |
| `DiffReview.TaggedIs` | client/src/components/InlineCodeDiffReview.tsx:44-58 | a line that is no header comes in its turn, under the path in force before it |
| `DiffReview.PathAfterIs` | client/src/components/InlineCodeDiffReview.tsx:46-55 | the path in force is that of the nearest header before, or the default when there is none |
| `DiffReview.CountIs` | client/src/components/InlineCodeDiffReview.tsx:57-58 | a tally is the multiplicity of the kind |
| `DiffReview.GroupLines` | client/src/components/InlineCodeDiffReview.tsx:41-63 | the sections hold the non-header lines in order, each under the path of the header before it, one non-empty section for each run between headers, with true tallies |
| `DiffReview.DiffFileSections` | client/src/components/InlineCodeDiffReview.tsx:33-64 | sections sent by the server are kept, otherwise the flat diff is grouped, under "changes" when no file is named |
| `DiffReview.GroupingUnique` | client/src/components/InlineCodeDiffReview.tsx:33-64 | only one list of sections is such a grouping |
| `DiffReview.TotalsMatch` | client/src/components/InlineCodeDiffReview.tsx:57-58 | the sections' tallies add up to the counts of added and deleted lines in all of them |
| `DiffReview.BuildSideBySideRows` | client/src/components/InlineCodeDiffReview.tsx:66-120 | the left column is the context and deletions, the right one the context and additions, in order and with true indices; read row by row the diff comes back; a deletion is paired exactly with an addition right after it |
| `DiffReview.PanesShow` | client/src/components/InlineCodeDiffReview.tsx:66-120 | in any such view a line stands in a left cell exactly when it is context or a deletion, in a right cell exactly when it is context or an addition, with its true index |
| `DiffReview.RowsAre` | client/src/components/InlineCodeDiffReview.tsx:66-120 | the five shapes a row of such a view can have, kind by kind |
| `DiffReview.SplitViewUnique` | client/src/components/InlineCodeDiffReview.tsx:66-120 | only one list of rows is such a view |
| `DiffReview.CommentPanes` | client/src/components/InlineCodeDiffReview.tsx:165-171 | in any such view every added or deleted line offers its comments in exactly one pane, every context line in both, a hunk line in none |
| `Raster.FillRect` | scripts/hive/generate_sprites.py:100-103 | exactly the pixels of the rectangle that are on the canvas change, negative sizes and offsets included |
| `Raster.StrokeRect` | scripts/hive/generate_sprites.py:106-112 | exactly the pixels of the two rows and two columns that are on the canvas change |
| `Raster.PixelAtIs` | scripts/hive/generate_sprites.py:70-112 | the background and what one more call paints, coordinate by coordinate and channel by channel |
| `Raster.StrokeIsBorderIff` | scripts/hive/generate_sprites.py:106-112 | what is stroked is the rectangle less the one a pixel inside it, exactly when width and height are both at least one or both less |
| `Raster.Draw` | scripts/hive/generate_sprites.py:90-112 | after any calls on a blank canvas of any size, each pixel has the colour of the last call that reaches it |
| `Raster.Untouched` | scripts/hive/generate_sprites.py:90-112 | a pixel in no call's rectangle keeps the background |
| `Png.WritePng` | scripts/hive/generate_sprites.py:77-87 | the nested loops produce the signature and the header, data and end chunks for the filtered rows, unless a size does not fit in 32 bits |
| `Png.FileBytes` | scripts/hive/generate_sprites.py:73-87 | the whole file by position: signature, lengths, types, header fields, data and the checksum of each chunk |
| `Png.RowBytesAre` | scripts/hive/generate_sprites.py:81-82 | the four bytes of each pixel of a row, in order |
| `Png.RawIs` | scripts/hive/generate_sprites.py:78-82 | the uncompressed data is, row after row, a zero and the bytes of the row |
| `Png.ReadWrittenChunk` | scripts/hive/generate_sprites.py:73-74 | a decoder reads back the tag and data of a chunk in front of anything |
| `Png.DecodeEncoded` | scripts/hive/generate_sprites.py:77-87 | decoding the written file gives exactly the rows written |
| `Png.DrawToFile` | scripts/hive/generate_sprites.py:77-112 | from calls to file: there is a file exactly when the sizes and the compressed rows fit in 32 bits, and decoding it gives exactly the rows the calls paint |
| `Sidebar.SectionNeighbour` | client/src/components/AppSidebar.tsx:351-362 | the nearest entry drawn in the same section in that direction, or none when there is none |
| `Sidebar.Move` | client/src/components/AppSidebar.tsx:364-380 | an arrow exchanges, by their ids, the entry with that neighbour and does nothing without one; with distinct ids those two are the ones exchanged |
| `Sidebar.NeighboursAreMutual` | client/src/components/AppSidebar.tsx:336-362 | the previous one's next is the entry itself, and the other way round |
| `Sidebar.MoveIsAdjacentSwap` | client/src/components/AppSidebar.tsx:336-349 | a move exchanges two rows drawn next to each other, leaves the other section identical and every other rank as it was |
| `Sidebar.MoveThereAndBack` | client/src/components/AppSidebar.tsx:364-380 | a move and the opposite move of the same row give back the list |
| `Sidebar.SwapEntries` | client/src/hooks/useSidebarTabs.ts:274-285 | exchanges the first entries with the two ids, is a permutation, and leaves the list alone when one is missing |

## Left out

- Argument parsing, printed messages, and joining path components: a checkout is
  given by the paths the blocks name.
- A dangling or other symbolic link and bytes that are not UTF-8 are refusals; a
  path that cannot be read for another reason is not modelled.
- Files.Directory.WriteLines: a kill may leave the temporary file behind, as in
  the code; a failing removal of it is not modelled, and partial contents are
  prefixes of the text rather than of its bytes.
- DocText.DocTemplateValid: the section's fixed prose is a parameter, and that the
  prose in the source is such wording is not shown. The lines with a path or a slug in
  them are given.
- YAML: only the indentation forest the code itself uses.
- Lifecycle.NoOrphan: in development the backend is the process that runs
  `python -m loregarden`, where the watchdog is. `uv` above it and the worker that
  uvicorn's `--reload` starts below it are not modelled, so nothing is said of a worker
  that outlives its supervisor.
- Lifecycle.TerminatedIsGone: a killed backend goes at some later step; that it does, and
  a kill the system refuses, are not modelled.
- Lifecycle: dialogs, logging, window handling, seeding of the data directory and the
  Windows path are not modelled.
- Polling.Child.WaitUntilReady: a connection attempt and the sleep after it are
  one stretch of time.
- DiffReview: lines of an unknown kind are shown nowhere, as in the code; comment
  storage, rendering and the anchors' text are not modelled.
- Png: zlib and CRC-32 are parameters; all that is used is that decompression
  undoes compression and that a CRC has 32 bits. Creating directories and the
  sprites' drawings are left out.
- Sidebar: drag and drop, and the request that stores the new order.
- The capacity ledger, merge queue, approvals and other server services; the other
  client components, API wrappers and export scripts.
