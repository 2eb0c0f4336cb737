# A verified model of the DSFinalProject canvas server core

DSFinalProject is a shared pixel canvas. Users place coloured pixels on a
50 x 50 grid, subject to a per-user cooldown. The game runs in 15-minute
episodes: when an episode ends, the canvas freezes, its final image is
exported, the episode is recorded in the database, and a fresh canvas
starts. This project models the four files of the server's core:

- **`backend/btree.cpp`**: the order-5 B-tree that maps a user id to the user's position in the user list.
  - Modules `BTreeView` (the tree's value, its in-order entries, sortedness, the split) and `BTreeIndex` (the `BTree` class with insert, search and the stub remove).
- **`backend/database.cpp`**: the user database, in module `Store`.
  - It holds users, the email map, the id index, login sessions and the last ten episodes.
  - Its binary save file is modelled in modules `Codec` (little-endian integers and length-prefixed strings) and `DbFormat` (the whole file layout, its decoder, and the round trip).
- **`backend/snapshot.cpp`**: the 16-colour palette and the export of a pixel list into an RGB buffer, in module `Snapshot`.
- **`backend/canvas.cpp`**: the canvas engine, in module `CanvasEngine`.
  - It covers pixel placement with cooldowns, region reads, quests, chat, seasons, snapshots, and the end of an episode.
  - The values it exchanges (pixels, quests, chat messages, episode info) are in `CanvasTypes`.
  - Shared fixed-width integer types and helpers are in `Common`.

State that the program updates in place is a class:

- `BTreeIndex.BTree`: the root node and the height.
- `Store.Database`: the user vector, the two indexes and the session map.
- `CanvasEngine.Canvas`: the grid as an `array2`, plus the cooldowns, quests, chat log and snapshot list.

Each method's contract ties the new state to specification functions on values. For example:

- `Contents()` is the in-order entry list of the B-tree.
- `EmailIndex(users)` is the email map that loading the users in order builds (a later user with the same email wins).
- `Render(pixels, w, h)` is the exported image.
- `Region(...)` is the list of cells a region read returns.
- `Progressed(...)` is the quest list after one placement.

The properties the program relies on are proved about those functions:

- The B-tree stays sorted and balanced, and a search finds what was inserted.
- Loading a saved file into a new database gives back the saved next id, users, episodes and sessions.
- Every exported pixel shows the colour of its grid cell.
- Quest progress never passes its target.
- A user can place again exactly when the cooldown has run out.
- The seasons cycle with period four.

The clock, the password hash (SHA-256 in the program) and the file system are parameters.

## Model

| member | source | states |
|---|---|---|
| BTreeView.SplitTreeShape | backend/btree.cpp:66-89 | Splitting child `i` of a node inserts the child's middle item at position `i`. It replaces the child by its lower and upper halves and shifts the later items and children one place right. |
| BTreeView.SplitTreeEntries | backend/btree.cpp:66-89 | A split does not change the node's in-order entry sequence. |
| BTreeView.SortedInsertAt | backend/btree.cpp:39-46 | Inserting an entry between a smaller-or-equal and a larger key keeps a sorted sequence sorted. |
| BTreeView.KeyInChild | backend/btree.cpp:97-109 | In a sorted node, a key that falls strictly between items `j-1` and `j` can occur only in child `j`. |
| BTreeIndex.SplitChildCorrect | backend/btree.cpp:66-89 | Splitting a full child of a non-full node keeps the tree balanced with at least one key per node. The middle key moves up, two keys stay left and one goes right, and the entries do not change. |
| BTreeIndex.HalvesWF | backend/btree.cpp:70-88 | The two halves of a full node are well-formed nodes of the same height, each with at least one key. |
| BTreeIndex.ShiftInsert | backend/btree.cpp:32-46 | The leaf shift loop places the new entry after every key not greater than it and before every greater key. The other items keep their order. |
| BTreeIndex.LeafInserted | backend/btree.cpp:34-46 | Inserting into a non-full leaf keeps it well-formed and sorted. Its entries gain exactly the new entry. |
| BTreeIndex.ChildIndex | backend/btree.cpp:49-52 | The descent index is the first position whose key is greater than the inserted key. |
| BTreeIndex.FreshKeyFound | backend/btree.cpp:10-20 | After a key that was absent is inserted, the key is present and maps only to the inserted value. |
| BTreeIndex.BTree.constructor | backend/btree.cpp:3-5 | A new tree is a single empty leaf with no entries. |
| BTreeIndex.BTree.Insert | backend/btree.cpp:10-20 | An insert keeps the tree balanced and sorted and adds exactly one entry (key, value). The height grows by one exactly when the root was full. |
| BTreeIndex.BTree.InsertAtRoot | backend/btree.cpp:10-20 | A full root is split under a new root before the descent; the entries gain exactly the new entry. |
| BTreeIndex.BTree.SplitRoot | backend/btree.cpp:11-16 | The new root holds one key and two children, one level higher, with the same entries. |
| BTreeIndex.BTree.InsertNonFull | backend/btree.cpp:31-64 | Inserting into a non-full node keeps it well-formed and sorted and adds exactly the new entry. |
| BTreeIndex.BTree.InsertIntoLeaf | backend/btree.cpp:34-46 | The leaf case of the insert adds exactly the new entry at its sorted place. |
| BTreeIndex.BTree.ChooseChild | backend/btree.cpp:48-60 | The chosen child is not full, and every key of the node lies on the correct side of the inserted key. A full child is split first, and the index moves right when the key is greater than the promoted key. |
| BTreeIndex.BTree.SplitChild | backend/btree.cpp:66-89 | The child's middle item moves into the parent at `index`. Two items stay in the left child and one goes to the new right child. The parent's other items shift, and the entries do not change. |
| BTreeIndex.BTree.Search | backend/btree.cpp:22-24 | If the key is present, the result is a value stored under it; otherwise the result is -1. |
| BTreeIndex.BTree.SearchNode | backend/btree.cpp:91-110 | The node search finds a value stored under the key in the subtree, or returns -1 when the subtree lacks the key. |
| BTreeIndex.BTree.Remove | backend/btree.cpp:26-29 | Remove leaves the tree and its entries unchanged. |
| Codec.LERoundTrip | backend/database.cpp:179-182 | Reading back the n little-endian bytes of a number below 256^n gives the number. |
| Codec.ReadU32 | backend/database.cpp:232 | A 4-byte read succeeds exactly when 4 bytes remain, and it consumes exactly those 4 bytes. |
| Codec.ReadU64 | backend/database.cpp:267 | An 8-byte read succeeds exactly when 8 bytes remain, and it consumes exactly those 8 bytes. |
| Codec.Str | backend/database.cpp:191-193 | A string is written as its 32-bit length followed by its bytes. A length of 2^32 or more wraps in the prefix. |
| Codec.ReadStr | backend/database.cpp:252-255 | A successful string read always consumes input. |
| Codec.U32RoundTrip | backend/database.cpp:182 | Reading a written 32-bit value gives it back and leaves the rest of the input untouched. |
| Codec.U64RoundTrip | backend/database.cpp:203 | Reading a written 64-bit value gives it back and leaves the rest of the input untouched. |
| Codec.StrRoundTrip | backend/database.cpp:191-193 | Reading a written string shorter than 2^32 bytes gives it back and leaves the rest untouched. |
| DbFormat.EncodeEpisode | backend/database.cpp:210-214 | An episode record is 20 bytes. |
| DbFormat.ReadUser | backend/database.cpp:249-267 | A user read that succeeds consumes input. |
| DbFormat.ReadEpisode | backend/database.cpp:281-284 | An episode read that succeeds consumes input. |
| DbFormat.ReadSession | backend/database.cpp:293-299 | A session read that succeeds consumes input. |
| DbFormat.ParseList | backend/database.cpp:248-272 | Reading `n` records, when it succeeds, gives exactly `n` records. |
| DbFormat.DecodeFile | backend/database.cpp:229-235 | A file whose first four bytes are not the magic "OMNI" (or that has fewer than four bytes) decodes to nothing. |
| DbFormat.UserRoundTrip | backend/database.cpp:188-204 | A user record written by serialize is read back to the same user, whatever follows it. |
| DbFormat.EpisodeRoundTrip | backend/database.cpp:210-214 | An episode record written by serialize is read back to the same episode. |
| DbFormat.SessionRoundTrip | backend/database.cpp:219-226 | A session record written by serialize is read back to the same session id and user id. |
| DbFormat.ListRoundTrip | backend/database.cpp:188-204 | A list of records, each of which round-trips, is read back as the same list. |
| DbFormat.ImageRoundTrip | backend/database.cpp:176-303 | Deserializing the bytes written by serialize gives back the same next id, users, episodes and sessions (when every length fits in 32 bits). |
| Store.IndexLookup | backend/database.cpp:88-90 | The id index has an entry (id, position) exactly when the user at that position has that id. A key is present exactly when some user has that id. |
| Store.EmailIndexLast | backend/database.cpp:268-271 | The email map has an email exactly when some user has it. It maps the email to the id of the last user with that email. |
| Store.EmailIndexUnique | backend/database.cpp:89 | When emails are unique, the email map sends each user's email to that user's id. |
| Store.SidsAreKeys | backend/database.cpp:219-226 | Every session record written to the file names a session of the map it came from. |
| Store.MergeOver | backend/database.cpp:290-301 | Loading sessions overwrites entries of the existing map and keeps the others; the map is not cleared first. |
| Store.RegisterKeepsIssued | backend/database.cpp:73-95 | Registering a new email under the next id keeps the ids in range and unique, and the emails unique. |
| Store.DefaultUsers | backend/database.cpp:57-70 | Initialisation creates three users. |
| Store.DefaultEmailsDistinct | backend/database.cpp:58-66 | The three default emails differ, so all three registrations succeed. |
| Store.Database.constructor | backend/database.cpp:11-13 | A new database is empty, with next id 1 and an empty id index. |
| Store.Database.RegisterUser | backend/database.cpp:73-95 | A taken email returns 0 and changes nothing. Otherwise the user is appended under the next id with the hashed password, and both indexes stay consistent with the user list. |
| Store.Database.AppendUser | backend/database.cpp:88-90 | Appending a user and indexing it keeps both indexes consistent with the user list. |
| Store.Database.AuthenticateUser | backend/database.cpp:97-115 | An unknown email gives 0. A nonzero result is the mapped id of a user with that id whose stored hash is the hash of the password. With unique ids and emails, a correct password gives that user's id. |
| Store.Database.GetUserById | backend/database.cpp:117-123 | The result is a user with that id, and it is absent exactly when no user has the id. With unique ids it is that user. |
| Store.Database.GetUserByEmail | backend/database.cpp:125-131 | A user is found exactly when some user has the email, and it carries the mapped id. With unique ids and emails it is that user. |
| Store.Database.GetUserIdFromSession | backend/database.cpp:137-143 | The user id of a known session, or 0 for an unknown one. |
| Store.Database.CreateSession | backend/database.cpp:133-135 | The session now maps to the user, and every other session is unchanged. |
| Store.Database.RemoveSession | backend/database.cpp:145-147 | The session maps to no user afterwards, and every other session is unchanged. |
| Store.Database.SaveEpisode | backend/database.cpp:149-161 | The episode is appended, and the history keeps only the latest ten episodes. |
| Store.Database.GetEpisodeHistory | backend/database.cpp:163-166 | The result is the last `min(count, size)` episodes, in order. |
| Store.Database.Initialize | backend/database.cpp:46-71 | After initialisation the database holds exactly the three default users with ids 1 to 3, next id 4, and no episodes or sessions. |
| Store.Database.RegisterDefault | backend/database.cpp:58-69 | Each default registration appends the next default user. |
| Store.Database.Serialize | backend/database.cpp:176-227 | The bytes written are the file encoding of the next id, the users, the episodes, and the session map in some order, each session once. When every count and string fits 32 bits, that file image is encodable. |
| Store.Database.SaveThenLoad | backend/database.cpp:176-303 | Saving the database and loading the file into a new database gives the same next id, users, episodes and sessions, with consistent indexes, when every count and string fits 32 bits. |
| Store.Database.LoadNew | backend/database.cpp:11-31 | A new database loaded from a well-formed file holds the file's next id, users, episodes and sessions. |
| Store.Database.WriteSessions | backend/database.cpp:216-226 | The session section lists every session exactly once. |
| Store.Database.Deserialize | backend/database.cpp:229-303 | The load fails exactly on a bad magic and then changes nothing. On a well-formed file the users, episodes and next id are the file's, both indexes are rebuilt to match, and the file's sessions are merged over the existing ones. |
| Store.Database.ReadUsers | backend/database.cpp:240-272 | The user loop reads exactly the file's user list and rebuilds both indexes from it. |
| Store.Database.ReadEpisodes | backend/database.cpp:274-287 | The episode loop reads exactly the file's episode list. |
| Store.Database.ReadSessions | backend/database.cpp:289-301 | The session loop merges the file's sessions over the existing map. |
| Store.Database.Load | backend/database.cpp:19-31 | A missing file or a bad magic fails and changes nothing. Otherwise the load succeeds with the contents of the file. |
| Common.Sub64 | backend/canvas.cpp:85 | Unsigned 64-bit subtraction wraps modulo 2^64. |
| Common.ToInt32 | backend/canvas.cpp:142 | The conversion to `int` keeps values below 2^31 and otherwise agrees modulo 2^32. |
| Common.Increment | backend/canvas.cpp:279 | The episode counter increments by one and wraps to 0 after 2^32-1. |
| Common.KeepLatest | backend/canvas.cpp:172-178 | Appending to a bounded log keeps the newest `limit` entries: the new entry is last, and the result is a suffix of the old log plus the entry. |
| Common.KeptBounded | backend/database.cpp:155-160 | A log within its limit stays within it; a full log drops its oldest entry. |
| Snapshot.PaletteColours | backend/snapshot.cpp:40-68 | The palette has 16 colours: index 2 is blue and 15 is white. An index of 16 or more is drawn white, and only indexes 15 and up give white. |
| Snapshot.CellInBuffer | backend/snapshot.cpp:16-17 | The three bytes of an in-bounds pixel lie inside the `w*h*3` buffer. |
| Snapshot.DistinctCells | backend/snapshot.cpp:17-24 | Different in-bounds cells never share a byte of the buffer. |
| Snapshot.Paint | backend/snapshot.cpp:16-25 | Painting a pixel keeps the buffer's length. |
| Snapshot.Render | backend/snapshot.cpp:13-26 | The exported buffer has exactly `w*h*3` bytes. |
| Snapshot.RenderCell | backend/snapshot.cpp:13-26 | Each byte of a cell holds the channel of the palette colour of the last pixel drawn at that cell, or 0 if none was drawn there. |
| Snapshot.OutsideSkipped | backend/snapshot.cpp:16 | A pixel outside the image does not change the export. |
| Snapshot.ExportImage | backend/snapshot.cpp:11-26 | The buffer the loop fills is the rendered image of the pixel list. |
| Snapshot.PaintInto | backend/snapshot.cpp:16-25 | Writing a pixel's three colour bytes into the buffer paints it, and leaves every other byte as it was. |
| CanvasEngine.BlankIsLocated | backend/canvas.cpp:26-31 | On a blank canvas, every cell stores its own coordinates. |
| CanvasEngine.CoordsRowMajor | backend/canvas.cpp:111-115 | The region loop visits cell (j, i) at row-major position `(j-y0)*(x1-x0) + (i-x0)`. |
| CanvasEngine.CellsAppend | backend/canvas.cpp:111-115 | Reading two lists of coordinates one after the other gives the two pixel lists concatenated. |
| CanvasEngine.RegionCellsAreCells | backend/canvas.cpp:111-115 | The nested region loops read exactly the cells of the coordinate list, in row-major order. |
| CanvasEngine.GridPixelsRowMajor | backend/canvas.cpp:127-136 | The full copy has 2500 pixels, and position `r*50 + c` holds cell (r, c). |
| CanvasEngine.RegionAsWritten | backend/canvas.cpp:108-113 | For a non-negative origin, the loop bounds as written visit exactly the clamped region. |
| CanvasEngine.NegativeOriginEscapes | backend/canvas.cpp:108-113 | With origin (-1, 0), width 2 and height 1, the loops as written read the cell in column -1, outside the grid. |
| CanvasEngine.Region | backend/canvas.cpp:102-118 | Every coordinate a region read visits is on the grid and inside the requested rectangle. |
| CanvasEngine.RegionPixelsInside | backend/canvas.cpp:102-118 | Every pixel a region read returns lies on the grid and inside the requested rectangle. |
| CanvasEngine.ExportShowsGrid | backend/canvas.cpp:267-268 | In the end-of-episode image, each cell's bytes are the palette colour of that grid cell. |
| CanvasEngine.LastIsCell | backend/canvas.cpp:127-136 | Among the pixels copied from a canvas, the last one drawn at a cell is that cell's pixel when the cell was copied, and none otherwise. |
| CanvasEngine.Advance | backend/canvas.cpp:289-295 | A quest's description and target never change. A completed quest, or one the placement does not hit, is unchanged. |
| CanvasEngine.Progressed | backend/canvas.cpp:287-314 | Well-formed quests stay well-formed, and completed quests are never changed. |
| CanvasEngine.QuestCountsToTarget | backend/canvas.cpp:287-314 | After any sequence of placements, a quest's progress is its start plus the hits, capped at its target. It is completed exactly when it reaches the target, and a completed quest stays as it is. |
| CanvasEngine.ClearQuests | backend/canvas.cpp:247-250 | Resetting keeps the number of quests. |
| CanvasEngine.ClearedQuestsAreInitial | backend/canvas.cpp:34-36 | Resetting well-formed quests gives back the three initial quests. |
| CanvasEngine.CooldownWindow | backend/canvas.cpp:80-89 | Once a user has placed at time `t <= now`, the next placement is admitted exactly when at least the cooldown (5 s logged in, 10 s guest) has passed. |
| CanvasEngine.ClockBackAdmits | backend/canvas.cpp:85 | When the clock has gone back (now < last placement), the unsigned difference wraps and the placement is admitted. |
| CanvasEngine.SeasonIndexAfter | backend/canvas.cpp:210 | The season index is always one of the four seasons. |
| CanvasEngine.SeasonCycle | backend/canvas.cpp:200-217 | After n season changes the index is `n mod 4`. The first change gives Frost, and the fourth returns to Bloom. |
| CanvasEngine.Canvas.constructor | backend/canvas.cpp:20-37 | A new canvas is blank white and calm, in episode 1, unfrozen, in season Calm, with the three initial quests and no cooldowns, chat or snapshots. |
| CanvasEngine.Canvas.ClearGrid | backend/canvas.cpp:240-244 | Every cell becomes a white, calm pixel at its own coordinates. |
| CanvasEngine.Canvas.PlacePixel | backend/canvas.cpp:63-100 | A placement succeeds exactly when the episode is not frozen, the cell is on the grid and the user's cooldown has passed. A refused placement changes nothing. An accepted one sets only that cell, records the user's time and advances the quests. |
| CanvasEngine.Canvas.UpdateQuests | backend/canvas.cpp:287-314 | The quests become the progressed quests for this placement. |
| CanvasEngine.Canvas.AdvanceQuest | backend/canvas.cpp:289-295 | One quest advances on a hit, and the others are unchanged. |
| CanvasEngine.Canvas.GetRegion | backend/canvas.cpp:102-118 | The result is the grid's pixels over the clamped region, in row-major order. |
| CanvasEngine.Canvas.CollectRow | backend/canvas.cpp:112-114 | The inner loop appends one row's cells, from column x0 up to x1. |
| CanvasEngine.Canvas.AllPixels | backend/canvas.cpp:127-136 | The result is the whole grid in row-major order. |
| CanvasEngine.Canvas.GetEpisodeInfo | backend/canvas.cpp:138-147 | The time remaining is never negative, and it is 0 exactly when the episode is over. Within 2^31 seconds of the start it is 900 minus the elapsed time, floored at 0. The episode is active exactly when it is not frozen. |
| CanvasEngine.Canvas.AddChatMessage | backend/canvas.cpp:169-179 | The message is appended, and only the latest 100 messages are kept. |
| CanvasEngine.Canvas.ResetCanvas | backend/canvas.cpp:239-253 | The grid is blank, the quests are reset, and the cooldowns are cleared. Nothing else changes. |
| CanvasEngine.Canvas.EndEpisode | backend/canvas.cpp:255-285 | The returned image renders the final canvas. The episode is recorded in the bounded history, and the canvas, quests, cooldowns and snapshots are reset. The next episode starts, unfrozen, at the restart time. |
| CanvasEngine.Canvas.ArchiveEpisode | backend/canvas.cpp:261-271 | The canvas is frozen and its image exported, and the episode is recorded with its start and end time. |
| CanvasEngine.Canvas.StartNextEpisode | backend/canvas.cpp:276-281 | The snapshots are cleared and the canvas is reset. The episode number advances and the new episode starts unfrozen. |
| CanvasEngine.Canvas.EpisodeTick | backend/canvas.cpp:186-198 | The episode ends exactly when 900 seconds have elapsed, which is exactly when the reported time remaining is 0. An ending tick does what `EndEpisode` does and leaves the accounts, sessions, chat and season alone. Otherwise nothing changes. |
| CanvasEngine.Canvas.SeasonTick | backend/canvas.cpp:205-213 | The season index advances by one modulo 4, and the season becomes the matching entry of Bloom, Frost, Warm, Calm. |
| CanvasEngine.Canvas.SnapshotTick | backend/canvas.cpp:219-237 | When the episode is not frozen, a copy of the whole grid is appended to the snapshots; otherwise nothing changes. |

## Left out

- Node storage:
  - The B-tree nodes are values with a sequence of (key, value) entries. The source uses `shared_ptr` nodes with parallel key and value vectors, so node sharing and aliasing are not modelled.
  - The `!node` check in `searchNode` cannot fire on a tree built by the source, and the model has no null nodes.
- The B-tree order is fixed at 5, the only order the database uses. The model also allows non-root nodes with a single key, as the code produces (after a split, one key moves to the right node).
- BTreeIndex.BTree.Remove: the source's remove is an empty stub, and the model states only that nothing changes.
- I/O left out:
  - File I/O: opening, writing and reading the file; `create_directories`; `save()`; and the save in the destructor.
  - `Load` receives the file's bytes, or none when it cannot be opened. `Serialize` returns the bytes.
- Truncated input:
  - Reading past the end of the file is modelled as a failed decode. The source goes on with indeterminate or partially overwritten values.
  - A file shorter than four bytes is treated as a bad magic.
- Store.Database.Deserialize: the partial state left by a truncated file is not stated; only the well-formed and the bad-magic cases are.
- Store.Database.GetEpisodeHistory: requires a non-negative count. A negative count makes the source form an iterator past the end of the vector, which is undefined behaviour.
- The password hash (SHA-256) is a function parameter `hash`, and the model does not describe SHA-256 itself.
- Time is a parameter (`now`, `endTime`, `restartTime`), in place of the system clock.
  - The three default registrations in `Initialize` share one time.
  - The freeze of `FREEZE_DURATION` seconds is represented only by the separate end and restart times.
- Store.Database.RegisterUser: the next id is a 32-bit value that wraps to 0. `Issued()` is shown to hold only while the next id stays below 2^32 - 1.
- Positions in the id index are unbounded integers. The source stores them as `int`, which overflows past 2^31 users.
- Snapshot.ExportImage: requires a non-negative width and height. The product `width*height*3` is unbounded here, where in the source it is an `int`.
- The PNG encoding (`stbi_write_png`), the file name and its return value are left out; `ExportImage` returns the RGB buffer.
- CanvasEngine.Canvas.GetEpisodeInfo: the exact remaining time is stated only for an elapsed time below 2^31 seconds. Beyond that, the source's `int` conversion is stated but `900 - elapsed` is not checked for overflow.
- CanvasEngine.Canvas.GetRegion: the sum `x + width` is an unbounded integer, where the source's `int` can overflow. The origin is clamped to the grid (see Findings).
- Left out of the model's scope:
  - Threads, mutexes, condition variables and sleeps: each loop body is one method (`EpisodeTick`, `SeasonTick`, `SnapshotTick`), and `start`/`stop` are not modelled.
  - `applySeason` (an empty body in the source).
  - The season names returned by `getCurrentSeason`.
  - The logging.
- The trivial getters (`getQuests`, `getChatMessages`, `getSnapshots`, `getEpisodeNumber`, `getAllPixels`) are the fields themselves or `AllPixels`.
- The quest "Fill top-left 10x10 area" counts every placement in that area, including repeats in the same cell, as the code does. It therefore does not measure coverage.

## Findings

| source | as written | input that shows it | evidently intended | confidence | as-written member | corrected member |
|---|---|---|---|---|---|---|
| backend/canvas.cpp:108-113 | `getRegion` clamps only the end of the region to the grid; the loops start at `x` and `y` as given | `getRegion(-1, 0, 2, 1)` reads `canvas_[0][-1]`, outside the row | clamp the origin to 0 as well, so only grid cells are read | not executed | CanvasEngine.NegativeOriginEscapes | CanvasEngine.Canvas.GetRegion |
