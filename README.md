# Ephemeral window manager

A model of the window manager behind a promotional page that keeps
spawning decorative "critical error" windows. Each spawn builds one window
record: its id comes from a counter that starts at 0, its stacking order
(`zIndex`) from a second counter that starts at 10, its position from two
random draws, and its message from a third draw over a fixed catalog. Both
counters are read and then bumped once per spawn. The new window goes to
the back of the list of live windows, and once that list holds more than
20 windows its front window, the oldest, is dropped. A close button
dismisses a window by filtering out every window with that id.

Three modules:

- `Windows` (`windows.dfy`): the window record, the three random draws
  of one spawn, and the factory `MakeWindow` with the position and message
  arithmetic.
- `WindowList` (`window_list.dfy`): the pure list updates. `Insert`
  appends and evicts at capacity 20. `RemoveById` is the filter. Lemmas
  cover eviction, order and ascending ids.
- `WindowManager` (`window_manager.dfy`): the invariant `WellFormed`
  and the class `Desktop`. `Desktop` holds the two counters (`nextId`,
  `zIndexRef`) and the window list as fields, and its methods update them in
  place. There is also the fold `InsertAll` over a run of spawns, and the
  25-spawn scenario.

The invariant kept by every spawn and every dismissal is this. The list
holds at most 20 windows. Ids strictly increase from front to back. Every
id is below `nextId`, so an id is never handed out twice. Every window's
`zIndex` is its id plus 10, so newer windows stack over older ones. Every
position lies in [10, 90) x [20, 80). Every message comes from the catalog.

The model follows the code in a few details. Positions are half-open ranges ([10, 90) and [20, 80)),
because `Math.random()` never returns 1. Dismissal removes every window
with the given id, not just one. Because ids are unique, `RemoveAt` shows
that this is exactly one window when the id is present. The recurring
timer period is 2000 ms.

## Model

| member | source | states |
|---|---|---|
| `Windows.PositionX` | App.tsx:19 | the horizontal position lies in [10, 90) for every draw in [0, 1) |
| `Windows.PositionY` | App.tsx:20 | the vertical position lies in [20, 80) for every draw in [0, 1) |
| `Windows.PickIndex` | App.tsx:16 | the message index picked from a draw in [0, 1) is a valid index of a non-empty catalog |
| `Windows.MakeWindow` | App.tsx:16-23 | the new record carries the given id and stacking order, a message from the catalog, and a position on screen |
| `WindowList.Insert` | App.tsx:25-29 | the new window is the last element; a list of at most 20 stays at most 20; nothing but the old windows and the new one is in the result |
| `WindowList.InsertBelowCapacity` | App.tsx:26-28 | below capacity the list grows by one and the old windows stay in place, in order, ahead of the new one |
| `WindowList.InsertKeepsNewest` | App.tsx:25-29 | insertion into a list of at most 20 keeps exactly the 20 most recent windows of old list plus new window |
| `WindowList.InsertEvictsOldest` | App.tsx:26-27 | at capacity the result is the old list without its front plus the new window; the evicted window has the smallest id present and is gone |
| `WindowList.InsertKeepsAscending` | App.tsx:25-29 | appending a window whose id exceeds all present keeps the ids strictly ascending |
| `WindowList.RemoveById` | App.tsx:44-46 | a window is in the result iff it was in the list and has a different id; an absent id leaves the list unchanged; the list never grows |
| `WindowList.RemoveDistributes` | App.tsx:45 | dismissal works on each part of a list separately, so the survivors keep their relative order |
| `WindowList.RemoveAbsent` | App.tsx:45 | dismissing an id that no window carries leaves the list unchanged |
| `WindowList.RemoveOnly` | App.tsx:45 | dismissing an id that only the window at position k carries removes exactly that window and keeps the rest in order |
| `WindowList.RemoveAt` | App.tsx:45 | with ascending ids, dismissing the id at position k removes exactly that window and keeps the rest in order |
| `WindowList.RemoveKeepsAscending` | App.tsx:45 | dismissal keeps the ids strictly ascending |
| `WindowManager.SpawnKeepsWellFormed` | App.tsx:15-29 | a spawn with id nextId and zIndex nextId + 10 keeps the invariant, with nextId advanced by one |
| `WindowManager.RemoveKeepsWellFormed` | App.tsx:44-46 | a dismissal keeps the invariant |
| `WindowManager.StackOrderFollowsAge` | App.tsx:12-22 | in a well-formed list every window stacks above every older one |
| `WindowManager.SpawnedIds` | App.tsx:12-23 | successive spawns from nextId = n hand out the ids n, n+1, ..., n+k-1 in order |
| `WindowManager.InsertAllKeepsNewest` | App.tsx:25-29 | any run of insertions into a list of at most 20 leaves exactly the 20 most recent windows, oldest first |
| `WindowManager.SpawnRunIds` | App.tsx:12-29 | after a run of k spawns from nextId = n, the ids on screen are the last 20 of the old ids followed by n .. n+k-1 |
| `WindowManager.TwentyFiveSpawns` | App.tsx:12-29 | 25 spawns from the initial state leave exactly the ids 5 .. 24, in that order |
| `WindowManager.Desktop.constructor` | App.tsx:9-13 | the page starts with no windows, nextId = 0 and zIndexRef = 10, and the invariant holds |
| `WindowManager.Desktop.Spawn` | App.tsx:15-30 | both counters go up by exactly one; the list becomes Insert of the old list and the window built from the old counters; the invariant holds |
| `WindowManager.Desktop.Remove` | App.tsx:44-46 | the list becomes RemoveById of the old list; the counters do not move; the invariant holds |
| `WindowManager.Desktop.SpawnEach` | App.tsx:32-39 | a sequence of k spawns advances both counters by k and leaves InsertAll of the old list and the k windows built; the invariant holds |
| `WindowManager.SpawnTwentyFive` | App.tsx:12-29 | a fresh page after 25 spawns shows the ids 5 .. 24 in order |

## Left out

- Timing: the start-up burst of six spawns at `i * 400` ms, the 2000 ms interval and its `clearInterval` on teardown. These depend on the host event loop and wall-clock time. `Desktop.SpawnEach` models only the resulting sequence of spawn calls.
- Randomness: the three `Math.random()` values are parameters (`Draws`), each assumed in [0, 1). Positions are exact reals. Floating-point rounding of `* 80 + 10`, `* 60 + 20` and of the message index is not modelled.
- The message catalog `CRYPTO_SLANG` (`constants.ts`) is not part of this model. It becomes a constructor parameter of `Desktop` that is required to be non-empty.
- State batching: React applies the `setWindows` updater later, while the counters move at once. Updaters run in call order, so the model applies each update immediately.
- Integer width: ids and stacking orders are JavaScript numbers. The model uses unbounded naturals and does not model precision loss past 2^53 spawns.
- Clipboard copy and the `copied` flag reset, the start-menu toggle and its global click listener, and all markup. These are browser glue with no state the window list depends on.
- `components/ModernWindow.tsx`, `components/RetroWindow.tsx` and `components/StartMenu.tsx` are presentational. Their close buttons only pass a window's id on to `Desktop.Remove`.
- The key-driven sprite movement loop is not part of this model. No source file in it contains that loop.
