# Readline, modelled and proved in Dafny

This project models the hard core of the port of GNU Readline 6.3 in
`SylixOS-Base/libreadline/readline/` and proves what it promises. Every file
holds one module. Pure meanings are functions and lemmas; code that works on
globals, arrays and buffers is a class or a method tied by its `ensures` to the
function that says what it does.

- `Common`: optional values, C strings and blanks, for all the others.
- `Keymaps`, `InputQueue`, `Dispatch`, `Callback`, `Dispatcher`, `Binding`:
  binding key sequences in a trie of keymaps, the ring of pushed-back keys, and
  dispatch in its two forms, recursive and as a chain of contexts for callback
  mode. When the longest bound prefix runs, and when the two forms agree, are
  if-and-only-if statements.
- `Undo`, `Kill`, `Editor`: the line buffer with its log of inverse edits and
  the kill ring.
- `Terminal`, `Display`, `Layout`, `Redisplay`: a screen of character cells,
  the update of one row, the table of line breaks, and whole redisplays.
- `Substitute`, `Tokenize`, `Quote`: the text algorithms of history expansion
  and shell quoting.
- `History`, `HistoryFile`: the history list and its file.
- `KeySequence`, `KeyText`, `Conditionals`, `Complete`: printing and parsing
  key sequences, when the parser leaves its text, the conditionals of the init
  file, and what completion shows. Key sequences are in bytes, so
  `KeySequence` has its own `At`.

Text is in single bytes, editing is in emacs mode, and C strings hold no null.
A keymap pointer is an index into a sequence of keymaps, so sharing can be
spoken of. Keys typed, the current time, the order `qsort` leaves and where a
word motion ends are parameters.

Where the code does not do what its comments or names suggest, the model follows
the code:

- Callback mode computes `got_subseq` from the keymap entered
  (`readline.c:916`), recursive dispatch from the keymap left
  (`readline.c:944`). `Callback.CallbackAgrees` says exactly when that shows.
- The lowercase stub dispatches the lower-case key with `got_subseq` forgotten
  (`readline.c:817-820`), so a bound prefix two or more keys before it may not
  run.
  `Dispatch.LongestPrefixRuns` says exactly when.
- A key pushed back into a full ring is lost (`input.c:157-170`).
- When ten slots are in use and the last command was no kill, the kill ring is
  shifted with a read of one slot behind it (`kill.c:119-120`); that slot is
  then overwritten. `Editor.Editor.CopyToKillRing` reports it.
- `stifle_history` sets `history_base` instead of moving it
  (`history.c:474`), which renumbers what is kept.
- FS prints as a control key with two backslashes, of which the parser takes
  one (`bind.c:683-711`).
- A byte from 128 on is printed as a meta key only where plain char is unsigned;
  where it is signed the byte is negative (`bind.c:670`) and printed as it is.
  Both are modelled.
- A control or meta prefix at the end of a key sequence takes the null for its
  key and the parser goes on behind it (`bind.c:476-503`).
  `KeyText.OverstepsExactly` says exactly when.
- A backslash at the end of a history line takes the null with it
  (`histexpand.c:1496-1508`) and the tokenizer goes on behind it.
  `Tokenize.RunsOverExactly` says exactly when.
- A screen of no width makes the column limit -1 (`complete.c:1515-1531`) and
  no entry is shown.

## Model

| member | source | states |
|---|---|---|
| `Keymaps.KeymapStore.MakeBareKeymap` | SylixOS-Base/libreadline/readline/keymaps.c:56-78 | A new keymap is added with all of its 257 slots unbound, and no existing one changes. |
| `Keymaps.KeymapStore.Descend` | SylixOS-Base/libreadline/readline/bind.c:388-416 | One key that is not the last: the keymap it leads to is entered, or made with the shadowed binding in its ANYOTHERKEY slot. |
| `Keymaps.KeymapStore.StoreLast` | SylixOS-Base/libreadline/readline/bind.c:417-436 | The last key: its slot is written, or the ANYOTHERKEY slot when a longer sequence already has a keymap there, with the do-nothing function standing in for a null one. |
| `Keymaps.KeymapStore.GenericBind` | SylixOS-Base/libreadline/readline/bind.c:368-442 | Binding is a point update over all sequences: the sequence bound resolves to what was asked for and every other one as before, prefixes whose binding moved included; the one loss is a proper prefix bound to the lowercase stub. The trie stays unshared, and keymaps in which every stub leads to a key without one stay so. |
| `Keymaps.GrownResolve` | SylixOS-Base/libreadline/readline/bind.c:399-415 | Putting a keymap in a slot changes the meaning of no sequence except, for the lowercase stub, the one that ends there. |
| `Keymaps.StoredResolve` | SylixOS-Base/libreadline/readline/bind.c:417-436 | Storing the final entry changes the meaning of that one sequence in an unshared trie. |
| `Keymaps.ProgressGrown` | SylixOS-Base/libreadline/readline/bind.c:388-416 | What holds of all sequences after i keys holds after i + 1 when a keymap had to be made. |
| `Keymaps.ProgressFound` | SylixOS-Base/libreadline/readline/bind.c:388-416 | The same when the keymap was already there. |
| `Keymaps.ProgressStored` | SylixOS-Base/libreadline/readline/bind.c:417-436 | The same for the last key, which completes the binding. |
| `InputQueue.PushBack` | SylixOS-Base/libreadline/readline/input.c:157-170 | Keys just read and pushed back, last one first, are at the front of the input again in order; of more than 511 the earliest are lost. |
| `InputQueue.PushBackAny` | SylixOS-Base/libreadline/readline/input.c:157-170 | The same for keys other than those read, as after a lowercase stub: they are all unread again if and only if there are at most 511. |
| `InputQueue.UngetAllRing` | SylixOS-Base/libreadline/readline/input.c:157-170 | What the ring holds after any number of keys has been pushed back, full or not. |
| `InputQueue.RingUnget` | SylixOS-Base/libreadline/readline/input.c:157-170 | Moving the read index back one slot, round the end, puts a key in front of the queue. |
| `InputQueue.RingStuff` | SylixOS-Base/libreadline/readline/input.c:371-393 | Moving the write index on one slot, round the end, puts a key behind the queue. |
| `InputQueue.Queue.Space` | SylixOS-Base/libreadline/readline/input.c:124-131 | Free slots and queued keys always add up to 511, wherever the indices are. |
| `InputQueue.Queue.GetChar` | SylixOS-Base/libreadline/readline/input.c:136-152 | Takes the oldest key, or reports that there is none. |
| `InputQueue.Queue.UngetChar` | SylixOS-Base/libreadline/readline/input.c:157-170 | Puts a key in front, or fails exactly when 511 are queued. |
| `InputQueue.Queue.StuffChar` | SylixOS-Base/libreadline/readline/input.c:371-393 | Puts a key behind, end of file as a newline, or fails exactly when 511 are queued. |
| `InputQueue.Queue.ReadKey` | SylixOS-Base/libreadline/readline/input.c:421-469 | Pushed-back keys are read before typed ones and reading loses none. |
| `Dispatch.LongestBound` | SylixOS-Base/libreadline/readline/readline.c:777-973 | The prefix called longest is bound. |
| `Dispatch.LongestMaximal` | SylixOS-Base/libreadline/readline/readline.c:777-973 | No longer prefix is. |
| `Dispatch.DispatchMeans` | SylixOS-Base/libreadline/readline/readline.c:777-973 | Recursive dispatch inside any keymap, with any bindings passed on the way and any lowercase stubs met, comes to the longest bound prefix of the keys looked up, to the right backing-out code with every key pushed back, or to an abort. |
| `Dispatch.LongestPrefixRuns` | SylixOS-Base/libreadline/readline/readline.c:768-1038 | What runs is the longest bound prefix of the keys looked up, upper case made lower by every stub met, if and only if no stub is met more than one key behind it, and exactly the keys behind it are unread again if and only if at most 511 have to be pushed back. Otherwise nothing runs: the keys are pushed back with code -2 exactly when none is bound, the root keymap has an ANYOTHERKEY binding and no stub is met past the first key, and are gone in all other cases. |
| `Dispatch.NoStubMet` | SylixOS-Base/libreadline/readline/readline.c:817-820 | Where no stub is met the keys looked up are the keys typed, so the longest bound prefix of what is typed runs. |
| `Binding.StubForgets` | SylixOS-Base/libreadline/readline/readline.c:817-820 | A stub met two keys behind a bound prefix, with the lower-case key unbound, makes dispatch forget the prefix: it does not run and all keys are gone. |
| `Binding.StubNextRuns` | SylixOS-Base/libreadline/readline/readline.c:817-820 | A stub on the key right behind a bound prefix does not: the prefix runs and the lower-case key is left to be read. |
| `Dispatch.InputRunsOut` | SylixOS-Base/libreadline/readline/readline.c:699-714 | If the input ends inside a keymap, stubs followed, dispatch waits and has run nothing. |
| `Dispatch.WalkEnds` | SylixOS-Base/libreadline/readline/readline.c:777-973 | Every key stream either stays inside the keymaps or leaves them at one particular key. |
| `Callback.Starts` | SylixOS-Base/libreadline/readline/readline.c:899-922 | The first key of a sequence, lowered by a stub or not, makes a chain of one context that matches the walk. |
| `Callback.Continues` | SylixOS-Base/libreadline/readline/readline.c:716-762 | Every further key that leads to a keymap adds one context, and the chain keeps matching the walk since the last stub; this relates the two ways got_subseq is computed. |
| `Callback.Unwinds` | SylixOS-Base/libreadline/readline/callback.c:186-196 | Walking back up the chain runs the longest bound prefix and pushes back the keys after it, as the recursion does. |
| `Callback.Finishes` | SylixOS-Base/libreadline/readline/callback.c:186-196 | The key that leaves the keymaps empties the chain in one pass, with the effect of the longest bound prefix since the last stub. |
| `Callback.FinishesStub` | SylixOS-Base/libreadline/readline/readline.c:817-820 | A stub that leads to no keymap empties the chain too; of the bindings on the way only that of the keymap it is in can still run. |
| `Callback.Feeds` | SylixOS-Base/libreadline/readline/callback.c:186-196 | Feeding the rest of a sequence one key a call ends in the state the keys and the last stub ask for. |
| `Callback.CallbackAgrees` | SylixOS-Base/libreadline/readline/readline.c:716-1038 | Callback mode fed one key a call ends with the same commands run, unread input and dispatching keymap as recursive dispatch if and only if the last keymap where no binding is known of, the root or that of the last stub, has no ANYOTHERKEY binding, or fewer than two keys follow in it, or a prefix of them is bound. |
| `Callback.MeaningAfter` | SylixOS-Base/libreadline/readline/readline.c:777-1038 | What the keys behind a place mean in the keymap reached there, against what all the keys mean from the root. |
| `Binding.RootBindingDiffers` | SylixOS-Base/libreadline/readline/readline.c:911-944 | One such keymap for every key that leads on from its root, and two keys on which the two forms do differ, whatever the second is. |
| `Callback.SessionsAgree` | SylixOS-Base/libreadline/readline/callback.c:186-196 | Any number of key sequences dispatched recursively, none of them among those on which the two forms differ, is matched by some number of callbacks, the whole state equal. |
| `Callback.NothingForgotten` | SylixOS-Base/libreadline/readline/readline.c:911-944 | No sequence is among them when neither the root nor a keymap with a stub has an ANYOTHERKEY binding. |
| `Callback.BothWait` | SylixOS-Base/libreadline/readline/callback.c:186-196 | When the input ends inside a keymap both forms wait with nothing run, callback mode with one context for each key, and a further pass changes nothing. |
| `Callback.NeverFaults` | SylixOS-Base/libreadline/readline/callback.c:186-196 | No run of callback mode, of any length, follows a null context. |
| `Dispatcher.Dispatcher.DispatchLeaf` | SylixOS-Base/libreadline/readline/readline.c:813-875 | A key that leads to no keymap runs, backs out with -2 or -1 and the key pushed back, or aborts with the chain disposed of. |
| `Dispatcher.Dispatcher.PushContext` | SylixOS-Base/libreadline/readline/readline.c:899-922 | In callback mode a keymap adds one context in front of the chain, with the flags the C code computes. |
| `Dispatcher.Dispatcher.DispatchKey` | SylixOS-Base/libreadline/readline/readline.c:777-973 | The method on globals refines both the recursive and the callback reading of one key, a lowercase stub dispatched again included, and leaves the keymaps as they were. |
| `Dispatcher.Dispatcher.BackOut` | SylixOS-Base/libreadline/readline/readline.c:975-1038 | Backing out refines its function and leaves the keymaps as they were. |
| `Dispatcher.Dispatcher.RunShadowed` | SylixOS-Base/libreadline/readline/readline.c:985-1012 | Running the shadowed binding refines its function although it borrows a keymap slot for self-insert, which it gives back. |
| `Dispatcher.Dispatcher.DispatchRoot` | SylixOS-Base/libreadline/readline/readline.c:768-775 | Reading a key and dispatching it refines one recursive dispatch, or the start of a callback sequence. |
| `Dispatcher.Dispatcher.DispatchContext` | SylixOS-Base/libreadline/readline/readline.c:716-762 | One pass over the newest context refines its function on the whole chain. |
| `Dispatcher.Dispatcher.Answer` | SylixOS-Base/libreadline/readline/readline.c:742-761 | The context is kept, dropped with its answer passed up, or the whole chain disposed of, according to the code. |
| `Dispatcher.Dispatcher.CallbackReadChar` | SylixOS-Base/libreadline/readline/callback.c:186-196 | The loop over the chain refines one pass of callback mode. |
| `Dispatcher.LeafDispatches` | SylixOS-Base/libreadline/readline/readline.c:813-875 | The two forms of the dispatcher agree on a key that leads to no keymap. |
| `Dispatcher.StubDispatches` | SylixOS-Base/libreadline/readline/readline.c:817-820 | A stub is the lower-case key dispatched in the same keymap with what was passed on the way forgotten, in both forms. |
| `Binding.BindThenType` | SylixOS-Base/libreadline/readline/bind.c:368-442 | Once a sequence is bound, typing it runs that command, unless more of what is typed was bound before or a stub is met more than one key behind it, and the keys behind it are unread again if and only if there are at most 511. |
| `Undo.RevertRestores` | SylixOS-Base/libreadline/readline/undo.c:316-330 | After any run of inserts, deletes, replacements, case changes, cursor moves, group marks and undos in any order from an empty log, groups balanced or not, reverting gives the original line back and an empty log. |
| `Undo.GroupIsAtomic` | SylixOS-Base/libreadline/readline/undo.c:177-255 | Whatever is edited between a begin and its end, groups nested to any depth, one undo restores the line and the log as they were before the begin. |
| `Undo.ExtendsApply` | SylixOS-Base/libreadline/readline/text.c:83-158 | Every edit, joined to the entry before it or not, keeps the log an exact inverse of the line and leaves older entries alone. |
| `Undo.CoalescedUndone` | SylixOS-Base/libreadline/readline/text.c:100-116 | Undoing an insert that a character was joined to gives the line that undoing it before the joining would have given. |
| `Undo.NestedInsert` | SylixOS-Base/libreadline/readline/text.c:100-116 | Joining an insert to an entry never crosses a group mark. |
| `Undo.UndoLoopThrough` | SylixOS-Base/libreadline/readline/undo.c:185-252 | Undoing inside a group does not stop before everything nested in it is undone. |
| `Undo.RevertRewinds` | SylixOS-Base/libreadline/readline/undo.c:316-330 | Reverting undoes the whole log, newest entry first, and never leaves the line. |
| `Undo.UndoLoopRewinds` | SylixOS-Base/libreadline/readline/undo.c:185-252 | Undoing any part of a good log leaves a good log. |
| `Kill.KillsCollect` | SylixOS-Base/libreadline/readline/kill.c:91-187 | Through any run of kills to either side of the cursor, the original line is the left part, then the slot, then the right part. |
| `Kill.YankRestores` | SylixOS-Base/libreadline/readline/kill.c:200-294 | Kills in a row, in any mix of directions, take one slot; one yank puts back everything they took and the other slots are the old ones, the oldest dropped when ten are in use. |
| `Kill.NextKill` | SylixOS-Base/libreadline/readline/kill.c:133-158 | A further kill is put at the right end of the slot for either direction. |
| `Kill.PopsGoRound` | SylixOS-Base/libreadline/readline/kill.c:521-551 | After a yank as many pops as the ring has slots give back the line, the cursor and the index. |
| `Kill.PopsShow` | SylixOS-Base/libreadline/readline/kill.c:521-551 | After k pops the line shows the slot k places back, between the same left and right parts. |
| `Kill.KillKeepsUsable` | SylixOS-Base/libreadline/readline/kill.c:165-187 | A kill leaves the ring fit for the next one exactly when it took something or there was a slot already: an empty first kill is noted as a kill with no slot to add to. |
| `Editor.Editor.ExtendLineBuffer` | SylixOS-Base/libreadline/readline/util.c:168-179 | The buffer grows until the index exists and keeps the line. |
| `Editor.Editor.InsertText` | SylixOS-Base/libreadline/readline/text.c:83-118 | Shifting in place and copying refines the insertion of the text at the cursor, logged unless an undo is being done. |
| `Editor.Editor.DeleteText` | SylixOS-Base/libreadline/readline/text.c:121-158 | Shifting in place refines the removal of the part between two bounds, reversed and overlong ones included, logged with what was removed. |
| `Editor.Editor.BeginUndoGroup` | SylixOS-Base/libreadline/readline/undo.c:276-283 | Logs a begin and counts the level. |
| `Editor.Editor.EndUndoGroup` | SylixOS-Base/libreadline/readline/undo.c:285-292 | Logs an end and counts the level. |
| `Editor.Editor.ReplaceText` | SylixOS-Base/libreadline/readline/text.c:185-202 | Delete and insert inside one undo group refine the replacement. |
| `Editor.Editor.ModifyingText` | SylixOS-Base/libreadline/readline/undo.c:295-313 | Logs the part about to change as one group; nothing for an empty part. |
| `Editor.Editor.ChangeCase` | SylixOS-Base/libreadline/readline/text.c:1316-1370 | Changing case in place refines replacing the part by its recased text, logged before it is changed. |
| `Editor.Editor.RecaseLoop` | SylixOS-Base/libreadline/readline/text.c:1319-1366 | The loop turns the part, and nothing else, into its recased form character by character. |
| `Editor.Editor.DoUndo` | SylixOS-Base/libreadline/readline/undo.c:177-255 | The loop on the buffer refines one undo, through nested groups. |
| `Editor.Editor.RevertLine` | SylixOS-Base/libreadline/readline/undo.c:316-330 | The buffer is rewound through the whole log. |
| `Editor.Editor.CopyToKillRing` | SylixOS-Base/libreadline/readline/kill.c:91-158 | The ring is shifted, extended or added to on the right side, and a slot behind it is read if and only if ten slots are in use and the last command was no kill. |
| `Editor.Editor.KillText` | SylixOS-Base/libreadline/readline/kill.c:165-187 | Text leaves the line and enters the ring. |
| `Editor.Editor.KillTo` | SylixOS-Base/libreadline/readline/kill.c:200-247 | A kill up to where a motion ended, either way, with the cursor where the text was. |
| `Editor.Editor.KillLine` | SylixOS-Base/libreadline/readline/kill.c:248-294 | The line kills are that with the ends of the line. |
| `Editor.Editor.Yank` | SylixOS-Base/libreadline/readline/kill.c:502-515 | The current slot is inserted, or nothing was ever killed and it aborts. |
| `Editor.Editor.YankPop` | SylixOS-Base/libreadline/readline/kill.c:521-551 | The yanked slot is replaced by the one before it exactly when the last command was a yank or a pop and the slot is what stands before the cursor. |
| `Terminal.OpenShows` | SylixOS-Base/libreadline/readline/display.c:1698-1764 | Opening a gap and filling it shows the new row, for every pair of rows with a common head and tail. |
| `Terminal.DeleteShows` | SylixOS-Base/libreadline/readline/display.c:1783-1874 | Deleting cells and overwriting the rest shows the new row. |
| `Terminal.OverwriteThenBlank` | SylixOS-Base/libreadline/readline/display.c:1783-1874 | Overwriting and then blanking, in either way, shows the new row. |
| `Display.Display.CompareRows` | SylixOS-Base/libreadline/readline/display.c:1453-1466 | Both rows, the first place they differ and a common tail, with no difference found exactly when the rows are equal. |
| `Display.Display.LastSame` | SylixOS-Base/libreadline/readline/display.c:1521-1562 | Where the common tails of the rows begin; a tail of blanks does not count. |
| `Display.Display.MoveCursorRelative` | SylixOS-Base/libreadline/readline/display.c:1976-2115 | The cursor gets to the column with no cell changed, whichever of reprinting, backing up and returning is used. |
| `Display.Display.MoveVert` | SylixOS-Base/libreadline/readline/display.c:2118-2155 | The cursor gets to the row with no cell changed, and stays where it is for a row below the screen. |
| `Display.Display.OpenSomeSpaces` | SylixOS-Base/libreadline/readline/display.c:2496-2530 | Every way of inserting blanks has the same effect on the row. |
| `Display.Display.DeleteChars` | SylixOS-Base/libreadline/readline/display.c:2533-2554 | One deletion of n cells and n deletions of one have the same effect. |
| `Display.Display.ClearToEol` | SylixOS-Base/libreadline/readline/display.c:2442-2453 | The rest of the row is blanked by capability or by writing blanks. |
| `Display.Display.SpaceToEol` | SylixOS-Base/libreadline/readline/display.c:2457-2467 | Blanks are written and the cursor is known to follow them. |
| `Display.Display.WrapToRow` | SylixOS-Base/libreadline/readline/display.c:1326-1407 | At the right margin the first character goes out at once, and what the row then shows is known. |
| `Display.Display.ChangeRow` | SylixOS-Base/libreadline/readline/display.c:1698-1874 | Whichever way to the new row is taken, the row shows exactly it and no other row changes. |
| `Display.Display.UpdateLine` | SylixOS-Base/libreadline/readline/display.c:1326-1874 | Incremental redraw equals full redraw: from a row showing the old text, the row shows exactly the new text, no other row changes and the cursor is where it is believed to be, for every mix of capabilities. |
| `Layout.TilesDraw` | SylixOS-Base/libreadline/readline/display.c:783-955 | For any text the recorded breaks cut the buffer into exactly the rows that typing it would fill: full ones, or ended by a newline, with the last column always below the width. |
| `Layout.TilesPut` | SylixOS-Base/libreadline/readline/display.c:783-955 | One more character keeps that. |
| `Redisplay.DrawPrompt` | SylixOS-Base/libreadline/readline/display.c:697-761 | The loop that breaks a prompt wider than the screen draws what putting its characters one by one draws. |
| `Redisplay.DrawChar` | SylixOS-Base/libreadline/readline/display.c:783-955 | One character drawn at once, octal, tab, control or plain, is what putting its displayed characters one by one draws. |
| `Redisplay.DrawLine` | SylixOS-Base/libreadline/readline/display.c:697-955 | The drawing loop yields that drawing, and the cursor's place and row as of the character at point. |
| `Redisplay.CursorInside` | SylixOS-Base/libreadline/readline/display.c:783-955 | The cursor's place lies inside the row recorded for it, as many columns from its break as the page has before the cursor. |
| `Redisplay.TiledRow` | SylixOS-Base/libreadline/readline/display.c:992-1016 | Every row of a tiled buffer, beyond the last one too, is read back as the row of the page. |
| `Redisplay.Redisplayer.UpdateRows` | SylixOS-Base/libreadline/readline/display.c:1008-1074 | After the loop every row of the new text is shown and the rows below still show the old. |
| `Redisplay.Redisplayer.ClearLeftover` | SylixOS-Base/libreadline/readline/display.c:1076-1090 | The rows no longer used are blank. |
| `Redisplay.Redisplayer.PlaceCursor` | SylixOS-Base/libreadline/readline/display.c:1092-1171 | The cursor ends in the recorded cell with no cell changed. |
| `Redisplay.Redisplayer.Redisplay` | SylixOS-Base/libreadline/readline/display.c:697-1172 | Whatever the screen showed, it then shows exactly the prompt and line as typed on an empty screen, and the cursor is in the cell of the character at point. |
| `Substitute.PiecesJoin` | SylixOS-Base/libreadline/readline/histexpand.c:746-831 | The pieces between occurrences, joined by the text searched for, are the string. |
| `Substitute.NothingBefore` | SylixOS-Base/libreadline/readline/histexpand.c:746-831 | The text does not occur before the end of the first piece, nor at all in a single piece. |
| `Substitute.FirstIsThere` | SylixOS-Base/libreadline/readline/histexpand.c:746-831 | It occurs right behind the first piece. |
| `Substitute.PiecesRest` | SylixOS-Base/libreadline/readline/histexpand.c:746-831 | Behind the first occurrence the pieces are those of the rest: the search is left to right and does not overlap. |
| `Substitute.NoOccurrence` | SylixOS-Base/libreadline/readline/histexpand.c:770-831 | There is one piece exactly when there is no occurrence. |
| `Substitute.Substitute` | SylixOS-Base/libreadline/readline/histexpand.c:737-831 | The loop that rewrites the string it scans ends, with all occurrences replaced, or the first one only, and fails exactly when there is none. |
| `Tokenize.TokensPartition` | SylixOS-Base/libreadline/readline/histexpand.c:1559-1610 | For every line the tokens, the last one cut at the end of the string where the scan leaves it, are non-empty, in order and disjoint, with only blanks between them and behind them up to the end or a comment. |
| `Tokenize.InOneToken` | SylixOS-Base/libreadline/readline/histexpand.c:1559-1610 | A position lies in one token at most. |
| `Tokenize.TokenizeWord` | SylixOS-Base/libreadline/readline/histexpand.c:1412-1538 | The scan with its nesting and quotes ends where the word ends. |
| `Tokenize.TokenizeLine` | SylixOS-Base/libreadline/readline/histexpand.c:1559-1610 | Reports the one token that holds the position asked for, or -1 if none does, and whether the scan left the string; if it did, the last token ends at the end of the string here and one behind it in the code. |
| `Tokenize.FindWord` | SylixOS-Base/libreadline/readline/histexpand.c:1636-1658 | The word found is the token around the position, and there is none exactly when no token holds it; whether the scan left the string is reported. |
| `Tokenize.RunsOverExactly` | SylixOS-Base/libreadline/readline/histexpand.c:1488-1537 | For every line the scan steps over the final null if and only if an odd number of backslashes ends the line and what is before them ends neither in a comment nor inside single quotes. |
| `Tokenize.NoQuotesPlain` | SylixOS-Base/libreadline/readline/histexpand.c:1488-1537 | A line without single quotes and comments ends in neither. |
| `Tokenize.RunsOverAtTheEnd` | SylixOS-Base/libreadline/readline/histexpand.c:1496-1508 | A letter and a backslash are such a line, a single quote and a backslash are not. |
| `Tokenize.StaysInside` | SylixOS-Base/libreadline/readline/histexpand.c:1488-1537 | On a line not ending in a backslash the scan never leaves the string. |
| `Quote.SingleQuote` | SylixOS-Base/libreadline/readline/shell.c:94-121 | The buffer allocated holds the quoted string and its null. |
| `Quote.QuoteRemoval` | SylixOS-Base/libreadline/readline/shell.c:94-121 | Removing the quotes by sections 2.2.1 and 2.2.2 of the POSIX Shell Command Language gives every string back. |
| `Quote.QuotedIsOneToken` | SylixOS-Base/libreadline/readline/histexpand.c:1488-1537 | Every quoted string is exactly one token, itself, when the single quote is neither a delimiter nor the comment character. |
| `History.LastLines` | SylixOS-Base/libreadline/readline/history.c:263-312 | After any run of additions the list is the last lines added, as many as it may hold, and its base has moved by exactly as many as were let go; a list stifled to nothing stays as it is. |
| `History.NumbersAreStable` | SylixOS-Base/libreadline/readline/history.c:199-209 | Asking for any number, whatever was added since, gives the entry that has that number or nothing. |
| `History.StifleNumbers` | SylixOS-Base/libreadline/readline/history.c:459-483 | Stifling keeps the newest entries, and they keep their numbers if and only if nothing is let go, nothing is kept or the base is zero. |
| `History.StifleRenumbers` | SylixOS-Base/libreadline/readline/history.c:468-479 | Two lines stifled to one: line 2 becomes line 1. |
| `History.AddThenTime` | SylixOS-Base/libreadline/readline/history.c:314-326 | Setting the time of the line just added is adding it with that time, even where nothing is added. |
| `History.HistoryList.AddHistory` | SylixOS-Base/libreadline/readline/history.c:263-312 | The array that grows by fifty and slides down when stifled refines the bounded list, with a NULL behind the last entry. |
| `History.HistoryList.AddHistoryTime` | SylixOS-Base/libreadline/readline/history.c:314-326 | The newest entry's time is replaced. |
| `History.HistoryList.HistoryGet` | SylixOS-Base/libreadline/readline/history.c:199-209 | An entry by its number, none outside the list. |
| `History.HistoryList.StifleHistory` | SylixOS-Base/libreadline/readline/history.c:459-483 | The array after stifling refines the list after stifling. |
| `HistoryFile.RoundTripExactly` | SylixOS-Base/libreadline/readline/histfile.c:248-302 | Entries written and read back are the same lines and times in order if and only if every line is non-empty, newline-free, not like a timestamp and not ended by a carriage return, and every time written is like a timestamp, newline-free and not ended by a carriage return; also with the null comment character, where the time of reading is empty. |
| `HistoryFile.NoCommentCharacter` | SylixOS-Base/libreadline/readline/histexpand.c:87 | With the comment character the library starts with, what comes back is exactly the storable lines without times. |
| `HistoryFile.DecodeIsTimed` | SylixOS-Base/libreadline/readline/histfile.c:268-302 | Every time read from any file is like a timestamp and on one line, or empty where the comment character is null. |
| `HistoryFile.CarriageReturnLost` | SylixOS-Base/libreadline/readline/histfile.c:272-276 | A line ending in a carriage return does not come back. |
| `HistoryFile.WrittenThenRead` | SylixOS-Base/libreadline/readline/histfile.c:248-302 | Such a file read into any list leaves the newest of the old entries and the file's together. |
| `HistoryFile.DecodeIsText` | SylixOS-Base/libreadline/readline/histfile.c:268-302 | Everything read from any file is a non-empty line that is not like a timestamp. |
| `HistoryFile.WriteRecords` | SylixOS-Base/libreadline/readline/histfile.c:487-540 | The buffer of the size worked out first is filled exactly with the encoded entries. |
| `HistoryFile.EndLine` | SylixOS-Base/libreadline/readline/histfile.c:272-276 | Ending a line in place leaves a C string that is the line without its carriage return. |
| `HistoryFile.ReadRecords` | SylixOS-Base/libreadline/readline/histfile.c:248-302 | Reading in place adds every line of any file, in order and with its time, although it writes into the buffer it is reading and counts lines against the size of the file. |
| `KeySequence.PrintTranslates` | SylixOS-Base/libreadline/readline/bind.c:447-572 | Every key but null and FS, printed in front of any text, is parsed back as itself and the text after it is untouched; where char is unsigned, 128 and some meta keys are not (all of them when Meta is read as a prefix; meta escape, backslash and quote when not). |
| `KeySequence.StrayTranslates` | SylixOS-Base/libreadline/readline/bind.c:683-711 | FS, and where char is unsigned meta backslash when Meta is a bit, come back but leave a stray backslash in front of what follows. |
| `KeySequence.GarbledFirst` | SylixOS-Base/libreadline/readline/bind.c:455-503 | Where char is unsigned, every other meta key is parsed as a different key. |
| `KeySequence.MetaKeysLost` | SylixOS-Base/libreadline/readline/bind.c:447-715 | Where char is unsigned, no sequence with a meta key anywhere comes back when Meta is read as a prefix, and none with meta escape or meta quote when it is not. |
| `KeySequence.RoundTripExactly` | SylixOS-Base/libreadline/readline/bind.c:447-715 | Printing then parsing is the identity on a sequence of bytes other than 0, and where char is unsigned other than 128, if and only if it holds no key that is parsed differently and every stray backslash left behind is lost again, for both printing modes, both readings of Meta and both kinds of char. |
| `KeySequence.RoundTrip` | SylixOS-Base/libreadline/readline/bind.c:447-715 | Every sequence of keys that leave nothing behind comes back; where char is signed these are all but FS. |
| `KeySequence.FSFails` | SylixOS-Base/libreadline/readline/bind.c:683-711 | FS followed by d does not come back. |
| `KeySequence.UntranslateFits` | SylixOS-Base/libreadline/readline/bind.c:659-715 | The printed text and its null fit the 7n + 1 bytes allocated. |
| `KeySequence.TranslateKeyseq` | SylixOS-Base/libreadline/readline/bind.c:447-572 | The loop computes the parse of the whole text, and reports exactly when it steps over the null that ends it. |
| `KeyText.OverstepsExactly` | SylixOS-Base/libreadline/readline/bind.c:455-503 | The parse steps over the final null if and only if the text ends right behind a control or meta prefix that a key should follow, as a twelve-state scan of the text decides it. |
| `KeyText.SurvivorsStayInside` | SylixOS-Base/libreadline/readline/bind.c:447-715 | The printed text of a sequence that comes back is never stepped out of. |
| `KeyText.PrefixOversteps` | SylixOS-Base/libreadline/readline/bind.c:476-503 | A control prefix alone is stepped out of, and so is the text printed for FS, C and a dash. |
| `KeyText.OverstepLeavesNull` | SylixOS-Base/libreadline/readline/bind.c:476-503 | Every parse that steps over the null has a null or meta null as its last key. |
| `KeyText.NoDashNoOverstep` | SylixOS-Base/libreadline/readline/bind.c:464-465 | A text that does not end in a dash is never stepped out of. |
| `KeySequence.TranslateOne` | SylixOS-Base/libreadline/readline/bind.c:456-567 | One turn of it takes one key name, every kind of escape included. |
| `KeySequence.UntranslateMacroValue` | SylixOS-Base/libreadline/readline/bind.c:659-715 | The loop computes the printed text. |
| `Conditionals.RunMeans` | SylixOS-Base/libreadline/readline/bind.c:1012-1125 | Over every sequence of lines, balanced or not, a binding is acted on exactly when every block around it is in its selected branch. |
| `Conditionals.OffUpward` | SylixOS-Base/libreadline/readline/bind.c:1085-1112 | Once a level is off, so are all the levels inside it. |
| `Conditionals.BlocksEvaluate` | SylixOS-Base/libreadline/readline/bind.c:1012-1125 | Nested blocks with any number of else lines are evaluated branch by branch, and any balanced block leaves the flag and the stack as it found them. |
| `Conditionals.InitFileParser.ParserIf` | SylixOS-Base/libreadline/readline/bind.c:1012-1031 | The flag is pushed on a stack that grows by twenty, and only a parser that is on looks at the test. |
| `Conditionals.InitFileParser.ParserElse` | SylixOS-Base/libreadline/readline/bind.c:1085-1112 | The flag is inverted unless some level is off; without an open block it is an error and nothing changes. |
| `Conditionals.InitFileParser.ParserEndif` | SylixOS-Base/libreadline/readline/bind.c:1116-1125 | The flag is popped; without an open block it is an error and nothing changes. |
| `Complete.NeighboursSuffice` | SylixOS-Base/libreadline/readline/complete.c:1281-1343 | The least of how far neighbours match is the longest prefix all matches share, up to 100000, with case folded or not. |
| `Complete.PrefixIsLongest` | SylixOS-Base/libreadline/readline/complete.c:1404-1407 | A string within the limit is a prefix of what is put in slot 0 exactly when it is a prefix of every match. |
| `Complete.ChosenIsShared` | SylixOS-Base/libreadline/readline/complete.c:1383-1400 | With case folded, whichever match the case is taken from, all of them share what is put in slot 0. |
| `Complete.MatchPair` | SylixOS-Base/libreadline/readline/complete.c:1310-1337 | The inner loop finds how far two strings match. |
| `Complete.ComputeLcd` | SylixOS-Base/libreadline/readline/complete.c:1254-1411 | Slot 0 becomes the only match, the text typed when nothing is shared, or the shared prefix, in the case typed if some match has it; the matches stay, reordered only when case is folded. |
| `Complete.LimitIsPositive` | SylixOS-Base/libreadline/readline/complete.c:1515-1531 | There is at least one column exactly when the screen has any width. |
| `Complete.LinesFit` | SylixOS-Base/libreadline/readline/complete.c:1515-1531 | A full line of the table stays short of the right edge exactly when one entry does. |
| `Complete.Place` | SylixOS-Base/libreadline/readline/complete.c:1547-1566 | The row and column of an entry are determined by its index. |
| `Complete.PrintDown` | SylixOS-Base/libreadline/readline/complete.c:1515-1566 | The nested loops show each of the entries exactly once, down the columns, for every number of entries, every entry width and every setting of the columns, if and only if the screen has any width. |

## Left out

- Multibyte characters, vi mode, isearch and the other searches, tilde expansion, colours, macros being defined or replayed: not modelled.
- Signals, the terminal's modes and capability database, timeouts and end of file while reading: input is a sequence of keys and capabilities are flags; capability strings that are set but empty are not modelled.
- Opening, renaming, truncating and reading files, and errors doing so: a file is a sequence of characters.
- Reading only a range of lines of a history file, and writing only the newest entries: the whole file and list are read and written.
- Prompts with invisible characters, horizontal scrolling, text taller than the screen and `rl_display_fixed`: not modelled; the screen is at least eight columns wide.
- By-words substitution (`:G`), `&` in the replacement and the search for the strings of `:s`: not modelled.
- Word motions, numeric arguments, the mark and whole-line kills: a kill is given the place the motion ended.
- Application hooks, the key sequence buffer, the editing of history lines recorded in their undo lists, and the vi-only effects of undo: not modelled.
- Sorting matches, removing duplicates, quoting file names, horizontal listing and the pager of the completion list: only the common prefix and the down-the-columns table are modelled.
- `$include`, and the words compared by `$if`: a line of an init file says whether its test holds.
- Keymaps.KeymapStore.GenericBind: does not model binding a keymap to a sequence, null keymap pointers or the conversion of meta characters; the trie it is given is unshared.
- Dispatch.LongestPrefixRuns: does not model meta conversion; commands return 0 and leave keymaps and input alone. Stubs are modelled where they lead to a key without one and are not in an ANYOTHERKEY slot, as in every keymap the library sets up; elsewhere the code calls itself without end or dispatches a key that was not typed (`readline.c:995-996`).
- Callback.CallbackAgrees: the same, and no timeout between keys.
- Callback.SessionsAgree: sessions with a sequence on which the two forms differ are left out, since after it they are in different states.
- Dispatcher.Dispatcher.DispatchKey: the same condition on stubs.
- Display.Display.MoveVert: the row just below the screen, to which the code moves by scrolling, is left out.
- Undo.RevertRestores: edits lie inside the line, as the commands that make them see to.
- Editor.Editor.DeleteText: one of the two bounds at least is not negative.
- Editor.Editor.CopyToKillRing: what is read from behind the ring is not modelled, only that it is.
- Tokenize.RunsOverExactly: a backslash as delimiter or as comment character is left out.
- Tokenize.TokensPartition: a scan that steps over the final null is stopped there, where the code reads on.
- Tokenize.TokenizeWord: the same.
- Tokenize.TokenizeLine: the same; `over` tells when.
- Tokenize.FindWord: the same; `over` tells when.
- KeySequence.TranslateOne: a control or meta prefix at the end of the text takes the null as its key and stops, where the code reads on.
- KeySequence.TranslateKeyseq: the same; `over` tells when.
- KeySequence.RoundTripExactly: the byte 0 is left out, since a null ends the sequence, and so is 128 where char is unsigned, since its text holds a null and is cut there.
- HistoryFile.RoundTripExactly: when times are written the time of reading is what `hist_inittime` makes: like a timestamp, or empty with a null comment character.
- Complete.ComputeLcd: the text completed is not dequoted.
