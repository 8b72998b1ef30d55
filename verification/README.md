# Game-server core in Dafny

This project models three pieces of a Go game-server framework and proves
properties about them:

- **The two-dimensional area-of-interest (AOI) index** (`game/aoi/2d.go`).
  - The plane is cut into `areaWidth × areaHeight` cells, and every entity is
    filed in the cell its position falls in.
  - Every entity has a *focus* set: the entities it currently sees.
  - `addEntity`, `refresh` and `deleteEntity` keep cells and focus sets in
    step and fire join/leave-vision events. `setAreaSize` rebuilds the grid.
- **The room manager** (`game/room/manager.go`, `game/room/info.go`).
  - It holds rooms with an optional player limit and an optional owner,
    plus the registered players.
  - It keeps a two-way membership index: player → rooms (`pr`) and
    room → players (`rp`).
- **Parts of the Excel config compiler**
  (`planner/configexport/internal/config.go`):
  - the skip-column analysis, data lines and index tree of `NewConfig`;
  - the field splitter and the `[]` rule of `GetType`;
  - the nested map type that `GetVariable` builds with `fmt.Sprintf`.

Modules:

| module | file | contents |
|---|---|---|
| `Common` | `common.dfy` | `Option`, `Result`; the ascending listing of a finite set, which stands in for Go's unspecified map iteration order |
| `GoText` | `go_text.dfy` | `strings.TrimSpace`/`HasPrefix`/`TrimPrefix`/`TrimSuffix`, and `fmt.Sprintf` for formats whose only verb is `%s` |
| `AoiGrid` | `aoi_grid.dfy` | the index record, the cell arithmetic, the scan bounds, the probe-point filter |
| `Aoi` | `aoi.dfy` | `GetFocus`, `refresh`, `addEntity`, `deleteEntity`, `setAreaSize`, `SetSize`, `SetAreaSize`, `NewTwoDimensional` |
| `Room` | `room.dfy` | the manager state and every operation named above |
| `ConfigType` | `config_type.dfy` | `GetType` and its field splitter |
| `ConfigSheet` | `config.dfy` | `NewConfig` (skip analysis, data lines, index tree) and `GetVariable` |

Every operation is a pure function from the old state to the new one.

- Each Go lock and each `BalanceMap.Atom` becomes one atomic step.
- A Go panic becomes an `Err` outcome, and the state is left unchanged.
- Go map iteration has no fixed order. Events are therefore a multiset, and
  loops over a map visit its keys in ascending order.
- Entity positions, vision radii and plane sizes are exact non-negative
  integers, and cell sizes are exact positive integers. The one exception is
  a new index whose cell size is zero in both directions.
- "Distance ≤ vision" is decided on squared distances.
- The accessors of all entities during one call are a parameter
  `world: Guid -> Entity`.

The model follows the code as written in three places where the code
evidently does not do what its authors meant. Each is proved as a lemma.

- **The AOI scan never runs.** Both scan end bounds are computed from
  `widthArea - widthSpan` (2d.go lines 187 and 200). The column end should be
  `widthArea + widthSpan`, and the row end `heightArea + heightSpan`. The column range is therefore always empty, and the
  callback is never called.
  - `AoiGrid.ScanVisitsNothing` proves this.
  - `Aoi.FocusStaysEmpty` draws the consequence: focus sets never gain a
    member.
  - `AoiGrid.CandidatesExact` proves that the per-cell probe filter drops
    nothing the per-entity filter would keep, for any bounds.
    `AoiGrid.CoveringScanFindsAll` proves that bounds covering the span box
    around the observer's cell, clipped to the grid, find every held entity
    within vision.
  - Replacing `-` with `+` is not enough. The loops use an exclusive end
    (`w < ew`, `h < eh`), and the ends are capped at the last cell index.
    So the last column and row of the span box are never visited.
    `AoiGrid.PlusBoundsMiss` shows a concrete miss.
    `AoiGrid.IntendedScanExact` proves that the same ends made inclusive
    find exactly the held entities within vision.
- **`KickOut`'s error test is inverted** (manager.go line 330):
  - a member cannot be kicked by another member;
  - any other call goes on to `Leave`.

  `Room.KickOutIsInverted` states this. It holds only if the call gets as
  far as line 330. `KickOut` calls `GetRoomPlayer` (line 319) from inside
  `slf.rp.Atom`, and `GetRoomPlayer` enters `slf.rp.Atom` again (line 208).
  The model reads the inner call as plain map access. If `Atom` holds a
  lock that cannot be re-entered, every `KickOut` blocks at line 319 instead.
- **Both refusals of `Join` dereference the still-nil room record**
  (manager.go line 307), so in the source they panic. The model returns the
  error with no new state.

## Model

| member | source | states |
|---|---|---|
| Room.NewManager | game/room/manager.go:10-20 | a new manager has no rooms and no players, and no membership in either index; it satisfies the manager invariant `Valid` |
| Room.CreateRoom | game/room/manager.go:33-39 | the room gets a fresh record with limit 0 (unlimited) and no owner, replacing any earlier one; nothing else changes |
| Room.ReleaseRoom | game/room/manager.go:42-45 | only the room's record is dropped; both membership indexes and the players are untouched |
| Room.SetPlayerLimit | game/room/manager.go:48-66 | a limit `<= 0` or an unknown room leaves the manager unchanged; otherwise only that room's limit is replaced |
| Room.CancelOwner | game/room/manager.go:69-86 | an existing room is left without an owner and everything else is kept; an unknown room changes nothing |
| Room.SetOwner | game/room/manager.go:89-112 | fails with RoomNotExist exactly for an unknown room, and with RoomOrPlayerNotExist exactly when `GetRoomPlayer` finds nobody; on success the new owner is a registered member and only the owner changes |
| Room.PlayerRoomsAreMemberships | game/room/manager.go:183-195 | on a manager whose two indexes agree, a `GetPlayerRoom` that does not fault returns exactly the existing rooms whose member list holds the player |
| Room.ReleasedRoomFaultsPlayerRoom | game/room/manager.go:42-45 | `ReleaseRoom` leaves the room id in the player-side index, so `GetPlayerRoom` of any player who was in the room dereferences the nil record (manager.go:191) |
| Room.PlayerLimitLifecycle | game/room/manager.go:239-241 | the limit `GetRoomPlayerLimit` reads is 0 after `CreateRoom`, the new limit after a positive `SetPlayerLimit` on an existing room, unchanged after a non-positive one, and a nil-record fault for an unknown or released room |
| Room.CreateRoomQueries | game/room/manager.go:120-138 | after `CreateRoom`, `Exist` holds, `GetRooms` gains the room, and `GetRoomCount` grows by one exactly when the room was new |
| Room.ReleaseRoomQueries | game/room/manager.go:120-138 | after `ReleaseRoom`, `Exist` fails, `GetRooms` loses the room, and `GetRoomCount` shrinks by one exactly when it existed |
| Room.JoinQueries | game/room/manager.go:141-236 | after a fresh join: `ExistPlayer` and `GetPlayer` report the handle, `GetRoomPlayer` and `GetRoomPlayers` list the player with it, and `GetRoomPlayerCount` and `GetPlayerRoomCount` each grow by one |
| Room.LeaveQueries | game/room/manager.go:141-236 | after a member leaves: `GetRoomPlayer` finds nobody, `GetRoomPlayers` no longer lists the player, and both counts shrink by one |
| Room.QueriesAgree | game/room/manager.go:155-236 | when the two indexes agree, `InRoom`, `GetRoomPlayer`, `GetRoomPlayers` and `ExistPlayer` all give the same answer about one membership |
| Room.Join | game/room/manager.go:275-310 | RoomNotExist exactly for an unknown room; RoomPlayerFull exactly when a positive limit is already reached; on success the player is in the room in both indexes and registered, and no other membership changes |
| Room.Enter | game/room/manager.go:288-304 | adds the room to the player's set and the player to the room's set, and records the player handle; every other entry is unchanged |
| Room.Leave | game/room/manager.go:244-272 | an unknown room changes nothing; otherwise both directions of the membership are gone, the player stays registered, and no other membership changes |
| Room.KickOut | game/room/manager.go:314-336 | as written: when both players are found in the room it changes nothing (or faults when the room record is missing); otherwise it faults on the nil player handle of an unregistered kicked player in an existing room, and in every other case runs `Leave` on the kicked player |
| Room.KickOutIsInverted | game/room/manager.go:318-335 | a member kicked by another member stays; a member kicked by a non-member is removed |
| Room.JoinRespectsLimit | game/room/manager.go:284-287 | a successful join never lifts the member count above a positive limit |
| Room.UnlimitedRoomNeverFull | game/room/info.go:7 | a limit `<= 0` means unlimited: joining an existing room with such a limit always succeeds |
| Room.JoinPreservesValid | game/room/manager.go:288-304 | `Join` keeps the two indexes in agreement (`r in pr[p] <==> p in rp[r]`), keeps every member registered and keeps limits non-negative |
| Room.LeavePreservesValid | game/room/manager.go:258-271 | `Leave` keeps the same invariant |
| Room.KickOutPreservesValid | game/room/manager.go:330-335 | a `KickOut` that returns keeps the same invariant |
| Room.LeaveKeepsPlayer | game/room/manager.go:244-272 | after `Leave` the player is still registered, with the same handle, so `ExistPlayer` still holds |
| Room.JoinThenLeave | game/room/manager.go:244-304 | leaving right after a fresh join restores every player's room set and every room's member set |
| Room.LimitOperationsKeepLimits | game/room/manager.go:48-61 | `SetPlayerLimit`, `CreateRoom`, `ReleaseRoom`, `CancelOwner` and a successful `SetOwner` never make a limit negative, and a limit that `SetPlayerLimit` changes becomes positive |
| Room.OwnerLifecycle | game/room/info.go:8 | an absent owner stays absent through `CancelOwner`, `CreateRoom`, `SetPlayerLimit`, a successful `Join`, `Leave` and a self-`KickOut`; a successful `SetOwner` makes exactly that player the owner |
| AoiGrid.EmptyGrid | game/aoi/2d.go:114-121 | the new grid has the requested numbers of columns and rows, and every cell is empty |
| AoiGrid.PlaneInGrid | game/aoi/2d.go:110-141 | in a grid of `ceil(width/aw)+1` columns of `ceil(height/ah)+1` cells, any position in `[0,width] × [0,height]` has an in-range cell for the write at line 141 |
| AoiGrid.ScanBounds | game/aoi/2d.go:172-205 | as written: the column end always equals the column start, so the column range is empty; on a grid with limits `>= 0`, both starts lie in the grid and the row range is well-formed |
| AoiGrid.ScanVisitsNothing | game/aoi/2d.go:181-193 | as written, the column end is clamped to the column start in every branch, so the scan hands nobody to its callback |
| AoiGrid.ProbeNoFarther | game/aoi/2d.go:207-223 | the probe point of a cell (near edge, or the observer's own coordinate in its own column or row) is no farther from the observer than any point of that cell |
| AoiGrid.Candidates | game/aoi/2d.go:193-236 | everything the scan hands over is held in some cell, is not the observer, and is within vision; an empty column or row range hands over nothing |
| AoiGrid.CandidatesExact | game/aoi/2d.go:224-233 | on a consistent grid, the cell filter never drops an entity within vision: over any bounds, the scan reports exactly the held entities other than the observer that are within vision in the visited cells |
| AoiGrid.SpanCoversVision | game/aoi/2d.go:174-178 | an entity within vision lies within `ceil(vision/aw)` columns and `ceil(vision/ah)` rows of the observer's cell |
| AoiGrid.CoveringScanFindsAll | game/aoi/2d.go:172-238 | bounds that cover the span box around the observer's cell, clipped to the grid `[0, widthLimit] x [0, heightLimit]`, report every held entity other than the observer that is within vision |
| AoiGrid.PlusBoundsMiss | game/aoi/2d.go:187-206 | with `+` in place of `-` but the exclusive `w < ew`, an observer at (0, 0) with vision 100 on a 200 x 200 plane of 100-wide cells scans only `Bounds(0, 1, 0, 1)`, and misses a held entity at (100, 0) that it sees |
| AoiGrid.IntendedScanExact | game/aoi/2d.go:172-238 | with `+` ends made inclusive, the scan reports exactly the held entities, other than the observer, that are within vision |
| Aoi.GetFocus | game/aoi/2d.go:53-57 | a copy of the guid's focus set; an unknown guid reads as the empty set |
| Aoi.Refresh | game/aoi/2d.go:151-170 | only focus sets change: the guid keeps exactly its members within vision, each evicted member loses the guid, other sets are kept, and no event fires |
| Aoi.RefreshBoundsFocus | game/aoi/2d.go:156-162 | after `refresh` every focus member is within vision; no evicted member is still in the set, and no evicted member still lists the guid |
| Aoi.RefreshIdempotent | game/aoi/2d.go:151-170 | refreshing twice with nothing moved is the same as refreshing once, and the second refresh fires nothing |
| Aoi.HandleJoins | game/aoi/2d.go:144-148 | the callback of `addEntity` changes nothing but focus sets |
| Aoi.AddEntity | game/aoi/2d.go:136-149 | the guid is added to exactly the cell `(x/aw, y/ah)`, gets a fresh empty focus set replacing any earlier one, no event fires, and a consistent grid stays consistent |
| Aoi.DeleteEntity | game/aoi/2d.go:240-253 | the guid leaves the cell of its position and loses its own focus set, each focus member loses the guid, and exactly two leave events fire per focus member, one in each direction |
| Aoi.LeaveEvents | game/aoi/2d.go:246-248 | the leave events of a delete are `(g, o)` and `(o, g)` for each focus member `o`, and nothing else |
| Aoi.DeleteCleansFocus | game/aoi/2d.go:245-251 | after a delete the guid has no focus set and none of its former focus members lists it |
| Aoi.AddThenDelete | game/aoi/2d.go:136-253 | deleting a new entity right after adding it gives back the original index and fires nothing |
| Aoi.GridGuids | game/aoi/2d.go:84-96 | the snapshot of the cells lists exactly the guids held in some cell |
| Aoi.GridGuidsHeld | game/aoi/2d.go:84-96 | a guid is in the snapshot exactly when it is held by the grid |
| Aoi.DeleteAll | game/aoi/2d.go:99-107 | deleting the snapshot's entities keeps the grid's shape, drops their focus sets and adds no focus member anywhere. Every event it fires is a leave between a deleted entity and a member of that entity's original focus set, in either direction, as each `deleteEntity` fires them (2d.go:247-248) |
| Aoi.Reallocate | game/aoi/2d.go:110-122 | the new grid has `ceil(width/aw)+1` columns of `ceil(height/ah)+1` empty cells, and plane size and focus sets are kept |
| Aoi.AddAll | game/aoi/2d.go:125-133 | re-adding the snapshot files each entity in the cell of its position on top of what was there, gives each an empty focus set and fires nothing |
| Aoi.Rebuild | game/aoi/2d.go:81-134 | on a consistent grid the rebuilt grid has the new shape, holds exactly the same guids, is consistent, leaves every held entity with an empty focus set and adds no member to any other focus set. Every event fired is a leave between a held entity and a member of its focus set before the rebuild, in either direction |
| Aoi.SetAreaSize | game/aoi/2d.go:71-79 | the same cell size leaves the state unchanged and fires nothing; any other size yields a valid, consistent grid for the new cell size over the same plane, holding exactly the same guids, and fires only leaves between a held entity and a member of its focus set |
| Aoi.SetSize | game/aoi/2d.go:59-69 | the same plane size leaves the state unchanged and fires nothing; any other size yields a valid, consistent grid for the new plane with the same cell size, holding exactly the same guids, and fires only leaves between a held entity and a member of its focus set |
| Aoi.NewTwoDimensional | game/aoi/2d.go:10-19 | a new index over the given plane has no focus sets and no held entity. With positive cell sizes its grid has the right shape. With both cell sizes zero, `SetAreaSize` returns early and the index has no cell, so no entity fits it |
| Aoi.FocusStaysEmpty | game/aoi/2d.go:144-169 | since the scan reports nobody, `addEntity`, `deleteEntity`, `refresh` and `setAreaSize` keep every focus set empty, and a rebuild then fires no event at all |
| ConfigType.Split | planner/configexport/internal/config.go:213-242 | the splitter fails exactly on an unmatched `}`. Otherwise its fields are exactly the reference list `Pieces`: the pieces between the cuts, where a cut is a comma outside every brace (dropped) or the `}` that closes the outermost brace (kept), and an empty last piece is not a field. Joined back together, the fields are the input without its depth-0 commas |
| ConfigType.SplitFails | planner/configexport/internal/config.go:229-235 | from any point of the loop, the splitter fails exactly when the rest of the input closes a brace that was never opened |
| ConfigType.SplitJoins | planner/configexport/internal/config.go:217-242 | from any point of the loop, a successful split concatenates to the closed fields, then the open field, then the rest of the input without its depth-0 commas |
| ConfigType.SplitPieces | planner/configexport/internal/config.go:217-242 | from any point of the loop with a cut-free open field, a successful split yields the closed fields followed by the pieces of the open field and the rest of the input |
| ConfigType.PieceBoundaries | planner/configexport/internal/config.go:219-235 | no field has a comma outside its braces, and the only `}` that brings a field back to depth 0 is its last character |
| ConfigType.SliceRule | planner/configexport/internal/config.go:204-210 | `GetType("[]T")` is `map[int]` of the basic name of `T` when `T` is basic, and `GetType(T)` otherwise |
| ConfigType.StructFailure | planner/configexport/internal/config.go:213-256 | a struct body with an unmatched `}` makes `GetType` fail; a successful one splits into fields whose text is the body without depth-0 commas |
| ConfigType.StructSucceeds | planner/configexport/internal/config.go:213-256 | `GetType` of a struct type succeeds exactly when its body has no unmatched `}` and every field's type is basic or itself accepted by `GetType` |
| ConfigType.RenderFieldsOk | planner/configexport/internal/config.go:246-254 | rendering the fields fails exactly when the type of one of them fails |
| ConfigType.EmptyFieldAfterNestedStruct | planner/configexport/internal/config.go:229-235 | a worked instance of the cut rule: `{a},b` splits into `{a}`, an empty field, and `b` |
| ConfigSheet.SkipField | planner/configexport/internal/config.go:26-42 | column `i >= 1` of the describe line is skipped exactly when its trimmed name starts with `#`, or its trimmed type or export parameter is empty or starts with `#` |
| ConfigSheet.KeptFrom | planner/configexport/internal/config.go:58-61 | the columns the loops visit are exactly those in range that are not skipped |
| ConfigSheet.KeptAscending | planner/configexport/internal/config.go:58-61 | the loops visit the kept columns in strictly ascending order |
| ConfigSheet.Assign | planner/configexport/internal/config.go:74-79 | the line holds exactly the assigned names; a name takes the value of its last assignment |
| ConfigSheet.DataLineFields | planner/configexport/internal/config.go:55-81 | rows from 7 on have a line exactly when some column is kept; its keys are exactly the names of the kept columns, and a kept column whose name no later kept column repeats holds its converted cell |
| ConfigSheet.Insert | planner/configexport/internal/config.go:95-108 | filing a row keeps every key path of the tree at the index depth |
| ConfigSheet.LookupInsert | planner/configexport/internal/config.go:95-108 | filing a row adds its line under its own full key path if nothing is there yet, and changes no other path |
| ConfigSheet.BuildLookup | planner/configexport/internal/config.go:88-113 | after the index loop, a full key path leads to the line of the first row with that path, and to nothing when no row has it |
| ConfigSheet.IndexFirstRowWins | planner/configexport/internal/config.go:83-113 | in the tree `NewConfig` builds, each full key path holds the line of the first data row with that path; later rows never overwrite it |
| ConfigSheet.NewConfig | planner/configexport/internal/config.go:12-117 | fails exactly when the name line minus column 0 and the skipped columns has fewer fields than the index count. Otherwise it keeps the skip set, and line slot `k` of every row is that row's data line: none for the seven header rows, and the names and values `DataLineFields` states for the others. `dataLine` is the last row's line, and the index tree has the index depth |
| ConfigSheet.KeptTypesOfColumns | planner/configexport/internal/config.go:166-170 | the types the `GetVariable` loop reads are the type cells of exactly the kept columns, in order |
| ConfigSheet.FormatNestStep | planner/configexport/internal/config.go:174-176 | `Sprintf` of `…map[%s]%s` with a type and the next format opens one `map[T]` level and puts the next format where the value goes |
| ConfigSheet.FormatMissing | planner/configexport/internal/config.go:179 | `Sprintf("map[%s]%s", x)` puts `x` in the key and prints `%!s(MISSING)` for the value |
| ConfigSheet.VariableStops | planner/configexport/internal/config.go:178-181 | once no index level is left, the loop fills the open verb with `*_Name` at the next kept column and stops; with no kept column left the string stays as it was |
| ConfigSheet.VariableNests | planner/configexport/internal/config.go:166-182 | while levels are left, each kept column opens one `map[T]`; then `*_Name` follows, or the unfilled `%s` or `map[%s]%s` when the kept columns run out |
| ConfigSheet.GetVariableShape | planner/configexport/internal/config.go:163-184 | the full result of `GetVariable` for every index count, including `map[*_Name]%!s(MISSING)` for a count `<= 0` |
| ConfigSheet.GetVariableIsLoop | planner/configexport/internal/config.go:183 | the final `Sprintf("%s", mapStr)` returns the loop's string unchanged, so `GetVariable` is the string that `GetVariableShape` gives in closed form |
| ConfigSheet.GetVariableNests | planner/configexport/internal/config.go:163-184 | with `k >= 1` index columns and more than `k` kept columns, the variable type is `k` nested `map[T_i]` levels over the first `k` kept types, ending in `*_Name` |

## Left out

- Locking: the `sync.RWMutex` of the AOI index and the `BalanceMap.Atom`
  sections of the manager. Between threads they are concurrency, so each
  operation is one atomic step. A single call that takes the same lock twice
  is not concurrency; `Room.KickOut` below is the one such case.
- Room.KickOut: the nested `slf.rp.Atom` is modelled as plain map access.
  `KickOut` (manager.go:318-319) calls `GetRoomPlayer`, which enters the same
  map's `Atom` (manager.go:208). `BalanceMap` is not part of this model. If
  its `Atom` holds a Go mutex, which cannot be re-entered, every `KickOut`
  deadlocks at line 319. `KickOut`, `KickOutIsInverted` and
  `KickOutPreservesValid` describe the code only under a re-entrant reading.
- Events: seats (`newSeat`, `addSeat`, `removePlayerSeat`) and the room event
  dispatch, whose code is not part of this model. AOI events are kept as a
  multiset of join/leave pairs.
- Floating point. Go's `float64` sizes and positions, `math.Ceil`, `int(x/aw)`
  truncation and the exact `==` in `SetSize`/`SetAreaSize` become exact
  integer arithmetic over non-negative values. `geometry.CalcDistanceWithCoordinate`
  becomes a comparison of squared distances.
- `game/builtin/moving2d.go` (a wall-clock ticker) and the `server` files are
  not part of this model.
- In the config compiler:
  - xlsx parsing, `GetJSON`, `GetStruct`, `GetDisplayName` and `GetName` are
    not modelled. The sheet is a `seq<seq<string>>`.
  - The index count of `GetIndexCount` is a parameter, and its parse panic is
    not modelled.
  - `getValueWithType`, `basicTypeName`, `str.KV` and `str.FirstUpper` are
    uninterpreted parameters (`conv`, `basic`, `kv`, `firstUpper`).
- `fmt.Sprintf` is modelled only for formats whose every `%` is a `%s`, the
  only verb the source writes. Type cells containing `%` are excluded by a
  precondition.
- Room.GetRooms, Room.GetPlayerRoom: return sets of room ids, not the room
  values. `GetRoom` and the seat queries are not modelled.
- ConfigSheet.NewConfig: requires that the header lines are at least as wide
  as the describe line, and that every row has the cells the loops read.
  Where cells are missing, the source panics on an index out of range; the
  model does not give those panics an outcome.
- ConfigSheet.GetVariable: requires a name cell and type cells without `%`.
- ConfigType.GetType: requires `str.KV` to return a type part shorter than
  its input, so that the recursion terminates. With a `KV` that does not
  shorten, the source may recurse forever.
- Aoi.AddEntity, Aoi.DeleteEntity: require the entity's cell to exist. Where
  it does not, the source panics on an index out of range, and the model does
  not give that panic an outcome.
- Aoi.Rebuild, Aoi.SetAreaSize, Aoi.SetSize: require every held entity to fit
  both the old grid and the new one (`FitsResize`). Where an entity does not
  fit, the source panics on an index out of range during the rebuild.
- Aoi.NewTwoDimensional, Aoi.SetAreaSize, Aoi.SetSize, Aoi.Rebuild: require
  cell sizes that are both positive (both zero is also allowed for
  `NewTwoDimensional`) and a non-negative plane. The source accepts the
  other inputs.
  - `NewTwoDimensional` with both cell sizes zero returns an index with no
    cell at 2d.go:73. The model covers this case, and every later
    `AddEntity` on that index panics on an index out of range.
  - A zero cell size in only one direction reaches `math.Ceil(width / 0)` at
    2d.go:112-113. Converting the infinite result to `int` has no defined
    value in Go.
  - A negative cell size or plane size is rounded by `math.Ceil` of a
    negative float, for example `ceil(-50 / 100) = 0`, and produces a grid
    the model does not describe.
- ConfigType.Split: works on `seq<char>`. Go's `range` over a string
  decodes UTF-8 runes and yields U+FFFD for each invalid byte. The model
  treats the type string as a sequence of already decoded characters.
- Aoi.Refresh: the join half of the loop is modelled through the scan, which
  as written reports nobody. No contract covers its events under other
  bounds.
